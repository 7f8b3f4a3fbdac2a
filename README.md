# Stocks-table scraper: a Dafny model of its data side

The test suite drives a browser through the stocks pages of a trading
website. Everything it decides, as opposed to clicks, is in
`CommonPages.java`:

- **extractRowData** turns one table row into an ordered map. The key is
  the trimmed header, the value the trimmed cell text. A synthetic
  `ReadmoreHref` key holds links. A responsive "parent" row also merges
  the title/value items of the hidden "child" rows its locator finds: as
  written, every later child row of the table, not only its own (see
  "## Findings").
- **extractTableData** keeps the rows whose class marks them as data rows.
- **getAllEntries** reads page after page in a do-while. The loop ends when
  **navigateToNextPage** no longer moves the table on. The total is
  recorded in `Config.entriesSize`.
- **findStockData** returns the first collected row that holds the stock
  symbol as a value.
- **entriesCount** reads N from the footer "Showing a to b of N entries"
  and checks it against `Config.entriesSize`.
- **extractTradingConditions** scrapes a two-column table into a map.
- **compareData** reports every column of the stock's row whose value
  equals a trading condition.
- `clickTabAndVerify` derives the expected page title from a tab name.

The model stands a snapshot in for the browser. The snapshot holds:

- the header texts;
- per page, the rows: class, cells with their link hrefs, and hidden items;
- the "next" control and whether its click goes through;
- the footer text;
- the trading-conditions rows.

The exceptions and failed TestNG assertions the modelled code raises on
the data it reads become a `Failure`/`Fail` carrying an `Error`: the
out-of-bounds header lookup, a footer without a count, a count too large
for `int`, a count mismatch, null `Config.entries` and an empty tab name.
The exceptions Selenium raises while locating elements have no such case;
"## Left out" lists them.

Modules, one file each:

| file | module | what |
|---|---|---|
| outcomes.dfy | Outcomes | `Option`, `Result`, `Outcome`, the error kinds |
| dom.dfy | Dom | the snapshot types |
| java_strings.dfy | JavaStrings | `trim`, `contains`, ASCII upper-casing, char replacement |
| linked_maps.dfy | LinkedMaps | `LinkedHashMap`: key order plus a map |
| row_extraction.dfy | RowExtraction | extractRowData, loop by loop |
| row_properties.dfy | RowProperties | what a row's map holds |
| table_extraction.dfy | TableExtraction | extractTableData and the child-row locator |
| pagination.dfy | Pagination | the `Browser` and `Config` state; navigateToNextPage, getAllEntries |
| stock_lookup.dfy | StockLookup | findStockData |
| entries_count.dfy | EntriesCount | the footer pattern, parseInt, entriesCount |
| trading.dfy | TradingConditions | extractTradingConditions, compareData |
| tab_title.dfy | TabTitle | the expected tab title |

The loops of the source are methods with `while` loops. Each is proved
equal to a function that replays the same steps one pass at a time. The
properties are lemmas about those functions.

- The browser is a class: the pages are fixed and `current` is the page
  shown. navigateToNextPage advances it.
- `Config.entries` and `Config.entriesSize` are fields of a `Config` object
  that the methods receive. They are not globals.

## Model

| member | source | states |
|---|---|---|
| LinkedMaps.PutSpec | src/test/java/com/xm/interview/test/pages/CommonPages.java:314-320 | LinkedHashMap.put keeps keys distinct and in step with the map. The put key now maps to the new value and every other key is unchanged. A new key goes last; an existing key keeps its position. |
| JavaStrings.TrimSpec | src/test/java/com/xm/interview/test/pages/CommonPages.java:318-319 | String.trim returns an infix that neither starts nor ends with a char <= ' '. Only such chars surround it. |
| JavaStrings.TrimIdempotent | src/test/java/com/xm/interview/test/pages/CommonPages.java:459-462 | Trimming a trimmed string changes nothing. |
| RowExtraction.ExtractCells | src/test/java/com/xm/interview/test/pages/CommonPages.java:317-328 | The cell loop. With more cells than headers it fails with the out-of-bounds lookup `headers.get(headers.size())`. Otherwise it yields the map built pass by pass from cell i and header i. |
| RowExtraction.MergeHiddenItems | src/test/java/com/xm/interview/test/pages/CommonPages.java:333-351 | The loop over one child row's items equals the item-by-item merge of those items. |
| RowExtraction.MergeHiddenRows | src/test/java/com/xm/interview/test/pages/CommonPages.java:331-352 | The loop over the located child rows merges their items row after row. |
| RowExtraction.ExtractRowData | src/test/java/com/xm/interview/test/pages/CommonPages.java:313-356 | extractRowData equals RowData: the cell loop, then the merge of the hidden items only when the class contains "parent". |
| RowProperties.RowOutcome | src/test/java/com/xm/interview/test/pages/CommonPages.java:313-330 | A row's extraction succeeds iff it has at most as many cells as there are headers. On success the map is well formed and holds RowValues. A row that is not a parent row ignores the child rows. |
| RowProperties.RowKeys | src/test/java/com/xm/interview/test/pages/CommonPages.java:317-351 | A key is in the row's map iff one of these writes it: a cell's trimmed header, ReadmoreHref for a cell with a link, or (parent rows only) a merged item. |
| RowProperties.RowValuesFromCells | src/test/java/com/xm/interview/test/pages/CommonPages.java:330-353 | A key that no merged item writes keeps the value the cell loop gave it. |
| RowProperties.RowCellValue | src/test/java/com/xm/interview/test/pages/CommonPages.java:317-321 | The map holds trim(headers[i]) -> trim(text of cell i), unless a later cell or a merged item writes that key. |
| RowProperties.RowReadmoreFromLink | src/test/java/com/xm/interview/test/pages/CommonPages.java:322-327 | A cell with a link stores the trimmed first href under ReadmoreHref, unless a later cell or a merged item writes ReadmoreHref. |
| RowProperties.RowHiddenValue | src/test/java/com/xm/interview/test/pages/CommonPages.java:334-350 | A merged item with a non-empty title stores its value under that title; with an empty title, under ReadmoreHref. The value is the item's trimmed first href, else its trimmed data. A later item writing the same key overrides it. |
| RowProperties.RowReadmoreFromHiddenLink | src/test/java/com/xm/interview/test/pages/CommonPages.java:338-344 | In a parent row, a merged item with a link stores its trimmed first href under ReadmoreHref, overriding the cells, unless a later item writes ReadmoreHref. |
| LinkedMaps.DedupSpec | src/test/java/com/xm/interview/test/pages/CommonPages.java:314 | The first-occurrence order of a key sequence holds each of its keys exactly once and nothing else. |
| RowProperties.RowKeyOrder | src/test/java/com/xm/interview/test/pages/CommonPages.java:314-351 | A row map's key order is the first occurrence of each key in put order: per cell the trimmed header, then ReadmoreHref for a link; in a parent row, per merged item ReadmoreHref for a link, then the item's key. The keys are distinct and are exactly the keys put. |
| RowProperties.RowReadmoreAbsent | src/test/java/com/xm/interview/test/pages/CommonPages.java:322-350 | With no links, no header named ReadmoreHref and no empty or ReadmoreHref titles, there is no ReadmoreHref key. |
| TableExtraction.ExtractTableData | src/test/java/com/xm/interview/test/pages/CommonPages.java:295-303 | The page loop equals TableData: the maps of the data rows in order, each merging every later child row as the locator of line 331 is written, or the first data row's failure. |
| TableExtraction.TableDataOutcome | src/test/java/com/xm/interview/test/pages/CommonPages.java:297-300 | extractTableData succeeds iff every data row fits the headers. Its failure is the out-of-bounds header lookup. |
| TableExtraction.TableDataRows | src/test/java/com/xm/interview/test/pages/CommonPages.java:297-303 | The result has one map per data row, in increasing row order and no more than there are rows. Entry k is the map of the k-th row whose class contains "parent", "odd" or "even", built with the child rows that `following-sibling::tr[@class='child']` finds. Every such row is included. |
| TableExtraction.LocatorsAgree | src/test/java/com/xm/interview/test/pages/CommonPages.java:331 | The locator as written agrees with the row's own child row when no other child row follows. |
| TableExtraction.FollowingChildRowsTakeOtherRows | src/test/java/com/xm/interview/test/pages/CommonPages.java:331 | As written, with two expanded parent rows, the first row locates both child rows and reports the second row's price. |
| TableExtraction.OwnChildRowsKeepOwnPrice | src/test/java/com/xm/interview/test/pages/CommonPages.java:331 | With the immediately following child row only, the first row reports its own price. |
| TableExtraction.TableDataAgree | src/test/java/com/xm/interview/test/pages/CommonPages.java:295-303 | When no child row sits beyond the row right after a data row (for one, on a page with no expanded row), the table as written equals the table built from each row's own child row. |
| Pagination.AdvancesIff | src/test/java/com/xm/interview/test/pages/CommonPages.java:270-281 | The table moves on iff a control with the exact class "paginate_button next" is located and its click goes through. The class test for "disabled" can never fire. |
| Pagination.Browser.NavigateToNextPage | src/test/java/com/xm/interview/test/pages/CommonPages.java:270-282 | Returns false for no control, a "disabled" class or a failed click, and leaves the page. Otherwise it moves to the next page and returns true. |
| Pagination.Browser.ExtractTableHeaders | src/test/java/com/xm/interview/test/pages/CommonPages.java:233-242 | The headers are the header texts of the page shown. |
| Pagination.LastPageSpec | src/test/java/com/xm/interview/test/pages/CommonPages.java:254-256 | The walk stops at the first page from the start whose control does not move on. Every page before it moves on. |
| Pagination.PagesDataConcatenated | src/test/java/com/xm/interview/test/pages/CommonPages.java:250-258 | getAllEntries' list is the in-order concatenation of the page lists from the start page to the stop page. Any page's failure is the result. |
| Pagination.FirstPageRead | src/test/java/com/xm/interview/test/pages/CommonPages.java:254-256 | The first page is always read. A failing first page fails the walk; a successful walk starts with the first page's rows. |
| Pagination.GetAllEntries | src/test/java/com/xm/interview/test/pages/CommonPages.java:250-262 | The do-while returns AllEntries from the page shown. On success `Config.entriesSize` is its length and the browser is on the stop page. On failure `entriesSize` is unchanged. |
| StockLookup.FirstWithValueNone | src/test/java/com/xm/interview/test/pages/CommonPages.java:365-375 | The lookup finds nothing (null) iff no entry holds the symbol as a value. |
| StockLookup.FirstWithValueSome | src/test/java/com/xm/interview/test/pages/CommonPages.java:367-374 | A found entry is the entry at some position i that holds the symbol. No earlier entry does. |
| StockLookup.FindEntry | src/test/java/com/xm/interview/test/pages/CommonPages.java:366-375 | The loop with early return yields the first entry holding the symbol. |
| StockLookup.FindStockData | src/test/java/com/xm/interview/test/pages/CommonPages.java:365-375 | findStockData collects all entries, then returns that lookup on them. It fails as getAllEntries fails. On success `Config.entriesSize` is the number of entries and the browser is on the stop page; on failure `entriesSize` is unchanged. |
| EntriesCount.MatchAtSound | src/test/java/com/xm/interview/test/pages/CommonPages.java:415-424 | Whatever the scanner matches at an offset is "Showing a to b of c entries", with non-empty digit strings a, b, c. Its group is c. |
| EntriesCount.MatchAtComplete | src/test/java/com/xm/interview/test/pages/CommonPages.java:415-424 | Every occurrence of the pattern at an offset is matched there with group c. |
| EntriesCount.FindFromSome | src/test/java/com/xm/interview/test/pages/CommonPages.java:421-425 | Matcher.find() reports the group of the leftmost matching offset. |
| EntriesCount.FindFromNone | src/test/java/com/xm/interview/test/pages/CommonPages.java:424 | find() fails iff no offset matches. |
| EntriesCount.DigitsValueOfDecimal | src/test/java/com/xm/interview/test/pages/CommonPages.java:425 | parseInt of the decimal digits of n is n. |
| EntriesCount.ShortGroupParses | src/test/java/com/xm/interview/test/pages/CommonPages.java:425 | A group of nine digits or fewer is below Integer.MAX_VALUE, so only ten or more digits can fail. |
| EntriesCount.CountCheckSpec | src/test/java/com/xm/interview/test/pages/CommonPages.java:409-428 | The check fails with "No match found." iff no offset matches. It passes iff the leftmost match's N is at most Integer.MAX_VALUE and equals entriesSize. |
| EntriesCount.CountCheckOfFooter | src/test/java/com/xm/interview/test/pages/CommonPages.java:414-428 | A footer that starts with the pattern whose N is the decimal form of n passes for n rows. It fails with a mismatch for n + 1 rows. |
| EntriesCount.FooterExample | src/test/java/com/xm/interview/test/pages/CommonPages.java:413-414 | "Showing 1 to 10 of 23 entries (filtered from 1,311 total entries)" passes for 23 rows. It fails for 1311, the number in the parenthesis. |
| EntriesCount.CheckEntriesCount | src/test/java/com/xm/interview/test/pages/CommonPages.java:409-430 | entriesCount applies the check to the shown page's footer and `Config.entriesSize`. |
| TradingConditions.ExtractTradingConditions | src/test/java/com/xm/interview/test/pages/CommonPages.java:438-473 | The row loop equals TradingData, the puts of the stored rows in order. |
| TradingConditions.TradingDataKeys | src/test/java/com/xm/interview/test/pages/CommonPages.java:443-469 | A header is a key iff some row has that header and both a non-empty header and a non-empty value. |
| TradingConditions.TradingDataLastWins | src/test/java/com/xm/interview/test/pages/CommonPages.java:466-469 | A key's value is the value of the last stored row with that header. |
| TradingConditions.TradingDataValues | src/test/java/com/xm/interview/test/pages/CommonPages.java:447-469 | Keys and values are non-empty and values are already trimmed. |
| TradingConditions.ColumnMatches | src/test/java/com/xm/interview/test/pages/CommonPages.java:483-488 | The inner loop lists, in traversal order, the conditions whose value equals the column's. |
| TradingConditions.CompareData | src/test/java/com/xm/interview/test/pages/CommonPages.java:480-490 | compareData fails on null `Config.entries`. Otherwise it reports the nested loops' matches, columns in insertion order. |
| TradingConditions.CompareDataReports | src/test/java/com/xm/interview/test/pages/CommonPages.java:482-489 | A report is printed iff its column and condition hold the same value. No report is printed twice. |
| TradingConditions.CompareDataCount | src/test/java/com/xm/interview/test/pages/CommonPages.java:482-489 | The number of reports equals the number of matching (column, condition) pairs. |
| JavaStrings.ToUpperAscii | src/test/java/com/xm/interview/test/pages/CommonPages.java:161 | Only 'a'..'z' change, each to its upper-case letter. |
| JavaStrings.ReplaceChar | src/test/java/com/xm/interview/test/pages/CommonPages.java:161 | replace("-", " ") keeps the length and replaces each '-' by ' '. No '-' is left. |
| TabTitle.ExpectedTitleSpec | src/test/java/com/xm/interview/test/pages/CommonPages.java:161 | The title fails iff the name is empty. Otherwise it has the name's length and an upper-cased first char. Each later '-' becomes a space, every other char is kept, and no '-' is left after position 0. |
| TabTitle.StocksTitle | src/test/java/com/xm/interview/test/pages/CommonPages.java:161 | "stocks" expects "Stocks". |
| TabTitle.DashedTitle | src/test/java/com/xm/interview/test/pages/CommonPages.java:161 | "stock-cfds" expects "Stock cfds". |

## Left out

- Selenium itself is replaced by the snapshot: waits, clicks, scrolling,
  `Thread.sleep`, the cookie pop-up, tab and link clicks, `applyFilter`,
  `searchForStockData`, `navigateToReadMore`, `verifyPageLoaded` and the
  mobile-only pages. These have no logic beyond calling the library.
- `expandAllTabsOnMobile` is not modelled. A page's rows are the DOM as it
  stands after that call. The exceptions of its cell lookup (line 210) and
  of its wait for clickable tabs (line 219) have no case in the model.
- `extractTableHeaders` does not model the exception of `findElement` when
  the header row (line 235) is missing: every page has its header texts.
- `entriesCount` does not model the exception of `findElement` when the
  info footer (line 410) is missing: every page has a footer text.
- A row without a `class` attribute makes `getAttribute("class")` return
  null, and `.contains` then throws (lines 298 and 330). The snapshot gives
  every row a class string, so the model has no such case.
- Console printing is left out. For compareData each printed line is a
  `Report`.
- The snapshot assumes every hidden item has its `dtr-title` and `dtr-data`
  elements and every link has an `href`. A missing one makes the source
  throw; the model has no such case.
- `.//td[1]` and `.//td[2]` are read as a row's first and second cell. The
  model does not follow nested tables.
- Pagination.Browser: the pages must end with one whose control does not
  move on (`Settles`). A site whose "next" control always advances would
  keep the source's do-while running for ever.
- Pagination.GetAllEntries: an exception inside the loop leaves the browser
  on the page where it happened. The model promises nothing about the page
  shown after a failure.
- `Config.entries` is assigned by the test runner from findStockData. The
  runner is not part of this model, so CompareData reads the field it is
  given.
- TradingConditions.CompareData: HashMap iteration order is not specified.
  It is a parameter `order` listing each key once. The properties are stated
  for every such order, and the inner order of a column's reports is only
  known relative to it.
- `trim` strips chars up to U+0020. `toUpperCase` is ASCII-only, so
  locale-dependent and multi-char upper-casing (such as 'ß') is not
  modelled.
- `Integer.parseInt` is modelled on the digit strings the pattern captures.
  A group above 2147483647 is the NumberFormat failure. `\d` is ASCII
  `[0-9]`, as in java.util.regex without the UNICODE_CHARACTER_CLASS flag.

## Findings

| source | as written | input that shows it | evidently intended | confidence | as-written member | corrected member |
|---|---|---|---|---|---|---|
| src/test/java/com/xm/interview/test/pages/CommonPages.java:331 | `following-sibling::tr[@class='child']` selects every later child row of the table, so a parent row also merges the hidden items of the parent rows below it | two expanded parent rows, each followed by its child row with Price 10 and Price 20: the first row reports Price 20 | only the parent row's own child row, the sibling right after it | not executed | TableExtraction.FollowingChildRowsTakeOtherRows | TableExtraction.OwnChildRowsKeepOwnPrice |

The model follows the code as written: `RowExtraction.RowAt`,
`TableExtraction.ExtractTableData` and everything built on them merge the
child rows `RowExtraction.FollowingChildRows` finds. The corrected locator
is `RowExtraction.OwnChildRows`, with `RowExtraction.RowAtOwn` and
`TableExtraction.TableDataOwn` as the row and the table built from it.
`TableExtraction.LocatorsAgree` proves the two locators agree whenever no
other child row follows, and `TableExtraction.TableDataAgree` lifts that
to whole pages.

The "next" locator of line 272 asks for the exact class
"paginate_button next". A control whose class also contains "disabled" is
therefore never located, and the `contains("disabled")` test of line 273
can never be true. `Pagination.AdvancesIff` proves this. The outcome is the
same either way (false), so it is modelled as written and not listed as a
finding.
