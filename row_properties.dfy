/** What a row map holds: which keys it has and which pass of the loops of
    `extractRowData` decides the value of each. The arguments run on the
    key/value part of the map alone; the key order only matters for Valid. */
module RowProperties {
  import opened Outcomes
  import opened JavaStrings
  import opened LinkedMaps
  import opened Dom
  import opened RowExtraction

  /** The keys one pass of the cell loop writes. */
  predicate CellWritesKey(header: string, cell: Cell, k: string) {
    Trim(header) == k || (|cell.hrefs| > 0 && k == ReadmoreKey)
  }

  /** The keys one hidden item writes. */
  predicate ItemWritesKey(item: HiddenItem, k: string) {
    HiddenKey(item) == k || (|item.hrefs| > 0 && k == ReadmoreKey)
  }

  // ---------------------------------------------------------------------
  // The key/value part of the two loops
  // ---------------------------------------------------------------------

  function CellValues(v: map<string, string>, header: string, cell: Cell): map<string, string> {
    var v' := v[Trim(header) := Trim(cell.text)];
    if |cell.hrefs| > 0 then v'[ReadmoreKey := Trim(cell.hrefs[0])] else v'
  }

  function CellsValues(cells: seq<Cell>, headers: seq<string>, n: nat): map<string, string>
    requires n <= |cells| && n <= |headers|
  {
    if n == 0 then map[] else CellValues(CellsValues(cells, headers, n - 1), headers[n - 1], cells[n - 1])
  }

  function ItemValues(v: map<string, string>, item: HiddenItem): map<string, string> {
    var v' := if |item.hrefs| > 0 then v[ReadmoreKey := HiddenValue(item)] else v;
    v'[HiddenKey(item) := HiddenValue(item)]
  }

  function ItemsValues(v: map<string, string>, items: seq<HiddenItem>): map<string, string>
    decreases |items|
  {
    if items == [] then v else ItemValues(ItemsValues(v, items[..|items| - 1]), items[|items| - 1])
  }

  lemma {:induction false} CellsDataValues(cells: seq<Cell>, headers: seq<string>, n: nat)
    requires n <= |cells| && n <= |headers|
    ensures CellsData(cells, headers, n).values == CellsValues(cells, headers, n)
  {
    if n > 0 {
      CellsDataValues(cells, headers, n - 1);
    }
  }

  lemma {:induction false} WithHiddenItemsValues(m: LinkedMap, items: seq<HiddenItem>)
    ensures WithHiddenItems(m, items).values == ItemsValues(m.values, items)
    decreases |items|
  {
    if items != [] {
      WithHiddenItemsValues(m, items[..|items| - 1]);
    }
  }

  // ---------------------------------------------------------------------
  // The cell loop
  // ---------------------------------------------------------------------

  lemma {:induction false} CellsDataValid(cells: seq<Cell>, headers: seq<string>, n: nat)
    requires n <= |cells| && n <= |headers|
    ensures Valid(CellsData(cells, headers, n))
  {
    if n > 0 {
      var m := CellsData(cells, headers, n - 1);
      CellsDataValid(cells, headers, n - 1);
      PutSpec(m, Trim(headers[n - 1]), Trim(cells[n - 1].text));
      if |cells[n - 1].hrefs| > 0 {
        PutSpec(Put(m, Trim(headers[n - 1]), Trim(cells[n - 1].text)), ReadmoreKey, Trim(cells[n - 1].hrefs[0]));
      }
    }
  }

  lemma {:induction false} CellsValuesKeys(cells: seq<Cell>, headers: seq<string>, n: nat, k: string)
    requires n <= |cells| && n <= |headers|
    ensures k in CellsValues(cells, headers, n)
        <==> exists j :: 0 <= j < n && CellWritesKey(headers[j], cells[j], k)
  {
    if n > 0 {
      CellsValuesKeys(cells, headers, n - 1, k);
      if exists j :: 0 <= j < n && CellWritesKey(headers[j], cells[j], k) {
        var j :| 0 <= j < n && CellWritesKey(headers[j], cells[j], k);
        assert j < n - 1 ==> exists j' :: 0 <= j' < n - 1 && CellWritesKey(headers[j'], cells[j'], k);
      }
    }
  }

  /** Passes lo..n-1 of the cell loop leave `k` alone when none of them writes it. */
  lemma {:induction false} CellsValuesUntouched(cells: seq<Cell>, headers: seq<string>, lo: nat, n: nat, k: string)
    requires lo <= n <= |cells| && n <= |headers|
    requires forall j :: lo <= j < n ==> !CellWritesKey(headers[j], cells[j], k)
    ensures Lookup(CellsValues(cells, headers, n), k) == Lookup(CellsValues(cells, headers, lo), k)
    decreases n
  {
    if n > lo {
      CellsValuesUntouched(cells, headers, lo, n - 1, k);
    }
  }

  // ---------------------------------------------------------------------
  // The hidden-item loop
  // ---------------------------------------------------------------------

  lemma {:induction false} WithHiddenItemsValid(m: LinkedMap, items: seq<HiddenItem>)
    requires Valid(m)
    ensures Valid(WithHiddenItems(m, items))
    decreases |items|
  {
    if items != [] {
      var item := items[|items| - 1];
      var m0 := WithHiddenItems(m, items[..|items| - 1]);
      WithHiddenItemsValid(m, items[..|items| - 1]);
      if |item.hrefs| > 0 {
        PutSpec(m0, ReadmoreKey, HiddenValue(item));
        PutSpec(Put(m0, ReadmoreKey, HiddenValue(item)), HiddenKey(item), HiddenValue(item));
      } else {
        PutSpec(m0, HiddenKey(item), HiddenValue(item));
      }
    }
  }

  lemma {:induction false} ItemsValuesKeys(v: map<string, string>, items: seq<HiddenItem>, k: string)
    ensures k in ItemsValues(v, items)
        <==> k in v || exists t :: 0 <= t < |items| && ItemWritesKey(items[t], k)
    decreases |items|
  {
    if items != [] {
      var front := items[..|items| - 1];
      ItemsValuesKeys(v, front, k);
      if exists t :: 0 <= t < |front| && ItemWritesKey(front[t], k) {
        var t :| 0 <= t < |front| && ItemWritesKey(front[t], k);
        assert items[t] == front[t];
      }
      if exists t :: 0 <= t < |items| - 1 && ItemWritesKey(items[t], k) {
        var t :| 0 <= t < |items| - 1 && ItemWritesKey(items[t], k);
        assert front[t] == items[t];
      }
    }
  }

  /** Items that do not write `k` leave it alone. */
  lemma {:induction false} ItemsValuesUntouched(v: map<string, string>, items: seq<HiddenItem>, k: string)
    requires forall t :: 0 <= t < |items| ==> !ItemWritesKey(items[t], k)
    ensures Lookup(ItemsValues(v, items), k) == Lookup(v, k)
    decreases |items|
  {
    if items != [] {
      var front := items[..|items| - 1];
      assert forall t :: 0 <= t < |front| ==> front[t] == items[t];
      ItemsValuesUntouched(v, front, k);
    }
  }

  /** The last item that writes its key decides that key's value. */
  lemma {:induction false} ItemsValuesLast(v: map<string, string>, items: seq<HiddenItem>, t: nat)
    requires t < |items|
    requires forall u :: t < u < |items| ==> !ItemWritesKey(items[u], HiddenKey(items[t]))
    ensures Lookup(ItemsValues(v, items), HiddenKey(items[t])) == Some(HiddenValue(items[t]))
    decreases |items|
  {
    if t < |items| - 1 {
      var front := items[..|items| - 1];
      assert forall u :: 0 <= u < |front| ==> front[u] == items[u];
      ItemsValuesLast(v, front, t);
    }
  }

  lemma {:induction false} ItemsValuesLastLink(v: map<string, string>, items: seq<HiddenItem>, t: nat)
    requires t < |items| && |items[t].hrefs| > 0
    requires forall u :: t < u < |items| ==> !ItemWritesKey(items[u], ReadmoreKey)
    ensures Lookup(ItemsValues(v, items), ReadmoreKey) == Some(HiddenValue(items[t]))
    decreases |items|
  {
    if t < |items| - 1 {
      var front := items[..|items| - 1];
      assert forall u :: 0 <= u < |front| ==> front[u] == items[u];
      ItemsValuesLastLink(v, front, t);
    }
  }

  // ---------------------------------------------------------------------
  // The key order
  // ---------------------------------------------------------------------

  /** The keys one pass of the cell loop puts, in the order it puts them. */
  function CellKeyLog(header: string, cell: Cell): seq<string> {
    [Trim(header)] + (if |cell.hrefs| > 0 then [ReadmoreKey] else [])
  }

  function CellsKeyLog(cells: seq<Cell>, headers: seq<string>, n: nat): seq<string>
    requires n <= |cells| && n <= |headers|
  {
    if n == 0 then [] else CellsKeyLog(cells, headers, n - 1) + CellKeyLog(headers[n - 1], cells[n - 1])
  }

  /** The keys one hidden item puts, in the order it puts them. */
  function ItemKeyLog(item: HiddenItem): seq<string> {
    (if |item.hrefs| > 0 then [ReadmoreKey] else []) + [HiddenKey(item)]
  }

  function ItemsKeyLog(items: seq<HiddenItem>): seq<string>
    decreases |items|
  {
    if items == [] then [] else ItemsKeyLog(items[..|items| - 1]) + ItemKeyLog(items[|items| - 1])
  }

  /** In a well-formed map a key is stored exactly when it is in the order. */
  lemma ValidHas(m: LinkedMap, k: string)
    requires Valid(m)
    ensures k in m.values <==> k in m.keys
  {
  }

  lemma CellsDataHas(cells: seq<Cell>, headers: seq<string>, n: nat, k: string)
    requires n <= |cells| && n <= |headers|
    ensures k in CellsData(cells, headers, n).values <==> k in CellsData(cells, headers, n).keys
  {
    CellsDataValid(cells, headers, n);
    ValidHas(CellsData(cells, headers, n), k);
  }

  lemma WithHiddenItemsHas(m: LinkedMap, items: seq<HiddenItem>, k: string)
    requires Valid(m)
    ensures k in WithHiddenItems(m, items).values <==> k in WithHiddenItems(m, items).keys
  {
    WithHiddenItemsValid(m, items);
    ValidHas(WithHiddenItems(m, items), k);
  }

  lemma CellOrder(m: LinkedMap, s: seq<string>, header: string, cell: Cell)
    requires m.keys == Dedup(s)
    requires Trim(header) in m.values <==> Trim(header) in m.keys
    requires ReadmoreKey in m.values <==> ReadmoreKey in m.keys
    ensures WithCell(m, header, cell).keys == Dedup(s + CellKeyLog(header, cell))
  {
    var h := Trim(header);
    var t := s + [h];
    PutOrder(m, s, h, Trim(cell.text));
    if |cell.hrefs| > 0 {
      PutOrder(Put(m, h, Trim(cell.text)), t, ReadmoreKey, Trim(cell.hrefs[0]));
      assert s + CellKeyLog(header, cell) == t + [ReadmoreKey];
    } else {
      assert s + CellKeyLog(header, cell) == t;
    }
  }

  lemma {:induction false} CellsDataOrder(cells: seq<Cell>, headers: seq<string>, n: nat)
    requires n <= |cells| && n <= |headers|
    ensures CellsData(cells, headers, n).keys == Dedup(CellsKeyLog(cells, headers, n))
  {
    if n > 0 {
      var m, log := CellsData(cells, headers, n - 1), CellsKeyLog(cells, headers, n - 1);
      CellsDataOrder(cells, headers, n - 1);
      CellsDataHas(cells, headers, n - 1, Trim(headers[n - 1]));
      CellsDataHas(cells, headers, n - 1, ReadmoreKey);
      CellOrder(m, log, headers[n - 1], cells[n - 1]);
      assert CellsData(cells, headers, n) == WithCell(m, headers[n - 1], cells[n - 1]);
      assert CellsKeyLog(cells, headers, n) == log + CellKeyLog(headers[n - 1], cells[n - 1]);
    }
  }

  lemma ItemOrder(m: LinkedMap, s: seq<string>, item: HiddenItem)
    requires m.keys == Dedup(s)
    requires HiddenKey(item) in m.values <==> HiddenKey(item) in m.keys
    requires ReadmoreKey in m.values <==> ReadmoreKey in m.keys
    ensures WithHiddenItem(m, item).keys == Dedup(s + ItemKeyLog(item))
  {
    if |item.hrefs| > 0 {
      var t := s + [ReadmoreKey];
      PutOrder(m, s, ReadmoreKey, HiddenValue(item));
      PutOrder(Put(m, ReadmoreKey, HiddenValue(item)), t, HiddenKey(item), HiddenValue(item));
      assert s + ItemKeyLog(item) == t + [HiddenKey(item)];
    } else {
      PutOrder(m, s, HiddenKey(item), HiddenValue(item));
      assert s + ItemKeyLog(item) == s + [HiddenKey(item)];
    }
  }

  lemma {:induction false} WithHiddenItemsOrder(m: LinkedMap, s: seq<string>, items: seq<HiddenItem>)
    requires Valid(m) && m.keys == Dedup(s)
    ensures WithHiddenItems(m, items).keys == Dedup(s + ItemsKeyLog(items))
    decreases |items|
  {
    if items != [] {
      var front, item := items[..|items| - 1], items[|items| - 1];
      WithHiddenItemsOrder(m, s, front);
      WithHiddenItemsHas(m, front, HiddenKey(item));
      WithHiddenItemsHas(m, front, ReadmoreKey);
      ItemOrder(WithHiddenItems(m, front), s + ItemsKeyLog(front), item);
      assert WithHiddenItems(m, items) == WithHiddenItem(WithHiddenItems(m, front), item);
      assert s + ItemsKeyLog(items) == s + ItemsKeyLog(front) + ItemKeyLog(item);
    } else {
      assert s + ItemsKeyLog(items) == s;
    }
  }

  // ---------------------------------------------------------------------
  // The properties
  // ---------------------------------------------------------------------

  /** The key/value part of the map of a row that fits its headers. */
  function RowValues(row: Row, hidden: seq<Row>, headers: seq<string>): map<string, string>
    requires |row.cells| <= |headers|
  {
    var v := CellsValues(row.cells, headers, |row.cells|);
    if IsParent(row) then ItemsValues(v, HiddenItems(hidden)) else v
  }

  /** extractRowData fails exactly when the row has more cells than there are
      headers; otherwise its map is well formed and holds RowValues. A row
      that is not a parent row ignores the hidden rows. */
  lemma RowOutcome(row: Row, hidden: seq<Row>, headers: seq<string>)
    ensures RowData(row, hidden, headers).Success? <==> |row.cells| <= |headers|
    ensures RowData(row, hidden, headers).Success? ==>
      Valid(RowData(row, hidden, headers).value) &&
      RowData(row, hidden, headers).value.values == RowValues(row, hidden, headers)
    ensures !IsParent(row) ==> RowData(row, hidden, headers) == RowData(row, [], headers)
  {
    if |row.cells| <= |headers| {
      var m := CellsData(row.cells, headers, |row.cells|);
      CellsDataValid(row.cells, headers, |row.cells|);
      CellsDataValues(row.cells, headers, |row.cells|);
      if IsParent(row) {
        WithHiddenItemsValid(m, HiddenItems(hidden));
        WithHiddenItemsValues(m, HiddenItems(hidden));
      }
    }
  }

  /** The keys of a row's map are exactly the trimmed headers of its cells,
      ReadmoreHref when some cell holds a link, and (parent rows only) the
      keys the merged hidden items write. */
  lemma RowKeys(row: Row, hidden: seq<Row>, headers: seq<string>, k: string)
    requires |row.cells| <= |headers|
    ensures k in RowValues(row, hidden, headers) <==>
      || (exists j :: 0 <= j < |row.cells| && CellWritesKey(headers[j], row.cells[j], k))
      || (IsParent(row) && exists t :: 0 <= t < |HiddenItems(hidden)| && ItemWritesKey(HiddenItems(hidden)[t], k))
  {
    var v := CellsValues(row.cells, headers, |row.cells|);
    CellsValuesKeys(row.cells, headers, |row.cells|, k);
    if IsParent(row) {
      ItemsValuesKeys(v, HiddenItems(hidden), k);
    }
  }

  /** The merge leaves `k` alone when no merged item writes it. */
  lemma RowValuesFromCells(row: Row, hidden: seq<Row>, headers: seq<string>, k: string)
    requires |row.cells| <= |headers|
    requires IsParent(row) ==>
      forall t :: 0 <= t < |HiddenItems(hidden)| ==> !ItemWritesKey(HiddenItems(hidden)[t], k)
    ensures Lookup(RowValues(row, hidden, headers), k) == Lookup(CellsValues(row.cells, headers, |row.cells|), k)
  {
    if IsParent(row) {
      ItemsValuesUntouched(CellsValues(row.cells, headers, |row.cells|), HiddenItems(hidden), k);
    }
  }

  /** Cell i's trimmed text is stored under its trimmed header when no later
      cell has the same header and no merged item writes that key: a later
      cell with the same header overwrites an earlier one. */
  lemma RowCellValue(row: Row, hidden: seq<Row>, headers: seq<string>, i: nat)
    requires |row.cells| <= |headers| && i < |row.cells|
    requires Trim(headers[i]) != ReadmoreKey
    requires forall j :: i < j < |row.cells| ==> Trim(headers[j]) != Trim(headers[i])
    requires IsParent(row) ==>
      forall t :: 0 <= t < |HiddenItems(hidden)| ==> HiddenKey(HiddenItems(hidden)[t]) != Trim(headers[i])
    ensures Lookup(RowValues(row, hidden, headers), Trim(headers[i])) == Some(Trim(row.cells[i].text))
  {
    var k := Trim(headers[i]);
    CellsValuesUntouched(row.cells, headers, i + 1, |row.cells|, k);
    RowValuesFromCells(row, hidden, headers, k);
  }

  /** A cell holding a link stores the trimmed href of its first link under
      ReadmoreHref, unless a later cell or a merged item writes that key: a
      later link-bearing cell overwrites it. */
  lemma RowReadmoreFromLink(row: Row, hidden: seq<Row>, headers: seq<string>, i: nat)
    requires |row.cells| <= |headers| && i < |row.cells| && |row.cells[i].hrefs| > 0
    requires forall j :: i < j < |row.cells| ==> !CellWritesKey(headers[j], row.cells[j], ReadmoreKey)
    requires IsParent(row) ==>
      forall t :: 0 <= t < |HiddenItems(hidden)| ==> !ItemWritesKey(HiddenItems(hidden)[t], ReadmoreKey)
    ensures Lookup(RowValues(row, hidden, headers), ReadmoreKey) == Some(Trim(row.cells[i].hrefs[0]))
  {
    CellsValuesUntouched(row.cells, headers, i + 1, |row.cells|, ReadmoreKey);
    RowValuesFromCells(row, hidden, headers, ReadmoreKey);
  }

  /** In a parent row, merged item t stores its value (the trimmed href of its
      first link if it has one, else its trimmed data) under its trimmed title,
      or under ReadmoreHref when the title is empty, unless a later item writes
      the same key. */
  lemma RowHiddenValue(row: Row, hidden: seq<Row>, headers: seq<string>, t: nat)
    requires |row.cells| <= |headers| && IsParent(row) && t < |HiddenItems(hidden)|
    requires var items := HiddenItems(hidden);
      forall u :: t < u < |items| ==> !ItemWritesKey(items[u], HiddenKey(items[t]))
    ensures var item := HiddenItems(hidden)[t];
      var v := if |item.hrefs| > 0 then Trim(item.hrefs[0]) else Trim(item.data);
      && (|Trim(item.title)| > 0 ==> Lookup(RowValues(row, hidden, headers), Trim(item.title)) == Some(v))
      && (|Trim(item.title)| == 0 ==> Lookup(RowValues(row, hidden, headers), ReadmoreKey) == Some(v))
  {
    ItemsValuesLast(CellsValues(row.cells, headers, |row.cells|), HiddenItems(hidden), t);
  }

  /** In a parent row, a merged item holding a link stores the trimmed href of
      its first link under ReadmoreHref, whatever the cells wrote there, unless
      a later item writes that key. */
  lemma RowReadmoreFromHiddenLink(row: Row, hidden: seq<Row>, headers: seq<string>, t: nat)
    requires |row.cells| <= |headers| && IsParent(row) && t < |HiddenItems(hidden)|
    requires |HiddenItems(hidden)[t].hrefs| > 0
    requires var items := HiddenItems(hidden);
      forall u :: t < u < |items| ==> !ItemWritesKey(items[u], ReadmoreKey)
    ensures Lookup(RowValues(row, hidden, headers), ReadmoreKey) == Some(Trim(HiddenItems(hidden)[t].hrefs[0]))
  {
    ItemsValuesLastLink(CellsValues(row.cells, headers, |row.cells|), HiddenItems(hidden), t);
  }

  /** The keys of a row's map in the order a LinkedHashMap keeps them: each
      key at the first pass that puts it, cell by cell (trimmed header, then
      ReadmoreHref for a link) and, in a parent row, item by item
      (ReadmoreHref for a link, then the item's key). */
  lemma RowKeyOrder(row: Row, hidden: seq<Row>, headers: seq<string>)
    requires |row.cells| <= |headers|
    ensures var log := CellsKeyLog(row.cells, headers, |row.cells|) +
                       (if IsParent(row) then ItemsKeyLog(HiddenItems(hidden)) else []);
      && RowData(row, hidden, headers).value.keys == Dedup(log)
      && (forall k :: k in RowData(row, hidden, headers).value.keys <==> k in log)
      && (forall i, j :: 0 <= i < j < |RowData(row, hidden, headers).value.keys| ==>
            RowData(row, hidden, headers).value.keys[i] != RowData(row, hidden, headers).value.keys[j])
  {
    var s := CellsKeyLog(row.cells, headers, |row.cells|);
    CellsDataOrder(row.cells, headers, |row.cells|);
    if IsParent(row) {
      CellsDataValid(row.cells, headers, |row.cells|);
      WithHiddenItemsOrder(CellsData(row.cells, headers, |row.cells|), s, HiddenItems(hidden));
      DedupSpec(s + ItemsKeyLog(HiddenItems(hidden)));
    } else {
      assert s + [] == s;
      DedupSpec(s);
    }
  }

  /** With no link anywhere, no header named ReadmoreHref and (in a parent
      row) no merged item whose title is empty or ReadmoreHref, the map has no
      ReadmoreHref key. */
  lemma RowReadmoreAbsent(row: Row, hidden: seq<Row>, headers: seq<string>)
    requires |row.cells| <= |headers|
    requires forall j :: 0 <= j < |row.cells| ==> |row.cells[j].hrefs| == 0 && Trim(headers[j]) != ReadmoreKey
    requires IsParent(row) ==> forall t :: 0 <= t < |HiddenItems(hidden)| ==>
      |HiddenItems(hidden)[t].hrefs| == 0 && Trim(HiddenItems(hidden)[t].title) !in {[], ReadmoreKey}
    ensures ReadmoreKey !in RowValues(row, hidden, headers)
  {
    CellsValuesKeys(row.cells, headers, |row.cells|, ReadmoreKey);
    RowValuesFromCells(row, hidden, headers, ReadmoreKey);
  }
}
