/** A snapshot of what the scraper reads from the browser, in place of the
    Selenium calls that read it. Every string is what `getText()` or
    `getAttribute(...)` would have returned for that element. */
module Dom {
  import opened Outcomes

  /** A `td` cell of the stocks table: its text and the `href` of each `a`
      element it contains, in document order. */
  datatype Cell = Cell(text: string, hrefs: seq<string>)

  /** An `li` of a responsive "child" row: the text of its `dtr-title` and
      `dtr-data` elements and the `href` of each `a` it contains. */
  datatype HiddenItem = HiddenItem(title: string, data: string, hrefs: seq<string>)

  /** A `tr` of the table body: its `class` attribute, its `td` cells and the
      `li` items below it (only a "child" row has any). */
  datatype Row = Row(cls: string, cells: seq<Cell>, items: seq<HiddenItem>)

  /** The pagination "next" element: its `class` attribute, and whether the
      click on it goes through (`clickElement` throws when the element never
      becomes clickable). */
  datatype Control = Control(cls: string, clickSucceeds: bool)

  /** One page of the stocks table as the browser shows it: the header texts
      of `thead/tr/th`, the body rows, the "next" element if there is one and
      the text of the `DataTables_Table_0_info` footer. */
  datatype Page = Page(headers: seq<string>, rows: seq<Row>, next: Option<Control>, footer: string)

  /** The `td[1]` or `td[2]` cell of a trading-conditions row: the text of
      its first `strong` element if it has one, and its own text. */
  datatype TradingCell = TradingCell(strong: Option<string>, text: string)

  /** A `tr` of the trading-conditions table: its first and second cells, if present. */
  datatype TradingRow = TradingRow(first: Option<TradingCell>, second: Option<TradingCell>)
}
