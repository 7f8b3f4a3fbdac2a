/** `getAllEntries` and `navigateToNextPage`: the table is read page after
    page, always at least once, and the rows of each page are appended until
    the "next" control no longer moves the table on. The total is recorded in
    `Config.entriesSize`. */
module Pagination {
  import opened Outcomes
  import opened JavaStrings
  import opened LinkedMaps
  import opened Dom
  import opened TableExtraction

  /** The exact class the locator of line 272 asks for. */
  const NextClass := "paginate_button next"

  /** Whether the located control carries the class, or else nothing is located. */
  predicate Located(next: Option<Control>) {
    next.Some? && next.value.cls == NextClass
  }

  /** The decision of navigateToNextPage: false when no control is located
      (NoSuchElementException), when its class contains "disabled", or when the
      click fails; true once the click went through. */
  predicate Advances(next: Option<Control>) {
    Located(next) && !Contains(next.value.cls, "disabled") && next.value.clickSucceeds
  }

  /** `t` cannot occur in a string that lacks its first char. */
  lemma AbsentFirstChar(s: string, t: string)
    requires |t| > 0 && forall i :: 0 <= i < |s| ==> s[i] != t[0]
    ensures !Contains(s, t)
  {
    forall i | 0 <= i <= |s| - |t| ensures !OccursAt(s, t, i) {
      SliceHead(s, i, |t|);
    }
  }

  lemma SliceHead(s: string, i: nat, n: nat)
    requires 0 < n && i + n <= |s|
    ensures s[i..i + n][0] == s[i]
  {
  }

  /** The locator asks for the exact class, so a located control is never
      "disabled": the table moves on exactly when a control with that class is
      there and its click goes through. */
  lemma AdvancesIff(next: Option<Control>)
    ensures Advances(next) <==> Located(next) && next.value.clickSucceeds
  {
    if Located(next) {
      AbsentFirstChar(NextClass, "disabled");
    }
  }

  /** The browser's pages, in the order the "next" control leads through them,
      end with a page whose control does not move the table on. */
  predicate Settles(pages: seq<Page>) {
    |pages| > 0 && !Advances(pages[|pages| - 1].next)
  }

  /** The page on which the do-while of getAllEntries stops, starting at page i. */
  function LastPage(pages: seq<Page>, i: nat): nat
    requires Settles(pages) && i < |pages|
    decreases |pages| - i
  {
    if Advances(pages[i].next) then LastPage(pages, i + 1) else i
  }

  /** The list getAllEntries builds from page i on, every page read with `headers`. */
  function PagesData(pages: seq<Page>, i: nat, headers: seq<string>): Result<seq<LinkedMap>>
    requires Settles(pages) && i < |pages|
    decreases |pages| - i
  {
    var page := TableData(pages[i].rows, headers);
    if page.Failure? || !Advances(pages[i].next) then page
    else
      var rest := PagesData(pages, i + 1, headers);
      if rest.Failure? then rest else Success(page.value + rest.value)
  }

  /** The rows of pages i..k, each page's list after the previous one's; the
      first page that fails decides the error. */
  function Concatenated(pages: seq<Page>, i: nat, k: nat, headers: seq<string>): Result<seq<LinkedMap>>
    requires i <= k < |pages|
    decreases k - i
  {
    var page := TableData(pages[i].rows, headers);
    if page.Failure? || i == k then page
    else
      var rest := Concatenated(pages, i + 1, k, headers);
      if rest.Failure? then rest else Success(page.value + rest.value)
  }

  /** The walk stops on the first page from i whose control does not move on. */
  lemma {:induction false} LastPageSpec(pages: seq<Page>, i: nat)
    requires Settles(pages) && i < |pages|
    ensures i <= LastPage(pages, i) < |pages|
    ensures !Advances(pages[LastPage(pages, i)].next)
    ensures forall p :: i <= p < LastPage(pages, i) ==> Advances(pages[p].next)
    decreases |pages| - i
  {
    if Advances(pages[i].next) {
      LastPageSpec(pages, i + 1);
    }
  }

  /** getAllEntries returns the in-order concatenation of the lists of pages
      i..k, k the page where the walk stops. */
  lemma {:induction false} PagesDataConcatenated(pages: seq<Page>, i: nat, headers: seq<string>)
    requires Settles(pages) && i < |pages|
    ensures i <= LastPage(pages, i) < |pages|
    ensures PagesData(pages, i, headers) == Concatenated(pages, i, LastPage(pages, i), headers)
    decreases |pages| - i
  {
    LastPageSpec(pages, i);
    if Advances(pages[i].next) {
      PagesDataConcatenated(pages, i + 1, headers);
    }
  }

  /** The first page is always read: a successful result starts with its rows,
      and a failing first page fails the whole walk. */
  lemma FirstPageRead(pages: seq<Page>, i: nat, headers: seq<string>)
    requires Settles(pages) && i < |pages|
    ensures TableData(pages[i].rows, headers).Failure? ==>
      PagesData(pages, i, headers) == TableData(pages[i].rows, headers)
    ensures PagesData(pages, i, headers).Success? ==>
      TableData(pages[i].rows, headers).Success? &&
      TableData(pages[i].rows, headers).value <= PagesData(pages, i, headers).value
  {
  }

  /** The list the whole walk produces from page i, with the headers of page i. */
  function AllEntries(pages: seq<Page>, i: nat): Result<seq<LinkedMap>>
    requires Settles(pages) && i < |pages|
  {
    PagesData(pages, i, pages[i].headers)
  }

  /** The browser, reduced to the pages its "next" control walks through and
      the page it shows. */
  class Browser {
    const pages: seq<Page>
    var current: nat

    ghost predicate Valid()
      reads this
    {
      Settles(pages) && current < |pages|
    }

    constructor (pages: seq<Page>)
      requires Settles(pages)
      ensures Valid() && this.pages == pages && current == 0
    {
      this.pages := pages;
      current := 0;
    }

    /** extractTableHeaders (lines 233-242): the header texts of the page shown. */
    method ExtractTableHeaders() returns (headers: seq<string>)
      requires Valid()
      ensures headers == pages[current].headers
    {
      headers := pages[current].headers;
    }

    /** navigateToNextPage (lines 270-282). */
    method NavigateToNextPage() returns (moved: bool)
      requires Valid()
      modifies this
      ensures Valid()
      ensures moved == Advances(pages[old(current)].next)
      ensures current == if moved then old(current) + 1 else old(current)
    {
      var next := pages[current].next;
      if next.None? || next.value.cls != NextClass {
        return false;
      }
      if Contains(next.value.cls, "disabled") {
        return false;
      }
      if !next.value.clickSucceeds {
        return false;
      }
      current := current + 1;
      return true;
    }
  }

  /** The static fields of `Config` that the scraper writes. */
  class Config {
    var entries: Option<LinkedMap>
    var entriesSize: int

    /** Java's defaults for static fields: null and 0. */
    constructor ()
      ensures entries == None && entriesSize == 0
    {
      entries := None;
      entriesSize := 0;
    }
  }

  /** `acc` in front of a list, or the failure. */
  function Prepend(acc: seq<LinkedMap>, r: Result<seq<LinkedMap>>): Result<seq<LinkedMap>> {
    if r.Failure? then r else Success(acc + r.value)
  }

  /** One pass of the do-while: page i's list goes behind `acc`, and the walk
      either moves on to page i + 1 or ends. */
  lemma PrependStep(pages: seq<Page>, i: nat, headers: seq<string>, acc: seq<LinkedMap>)
    requires Settles(pages) && i < |pages| && TableData(pages[i].rows, headers).Success?
    ensures var page := TableData(pages[i].rows, headers).value;
      if Advances(pages[i].next) then
        i + 1 < |pages| &&
        Prepend(acc, PagesData(pages, i, headers)) == Prepend(acc + page, PagesData(pages, i + 1, headers))
      else Prepend(acc, PagesData(pages, i, headers)) == Success(acc + page)
  {
    var page := TableData(pages[i].rows, headers).value;
    if Advances(pages[i].next) {
      var rest := PagesData(pages, i + 1, headers);
      if rest.Success? {
        assert acc + (page + rest.value) == acc + page + rest.value;
      }
    }
  }

  /** getAllEntries (lines 250-262): the do-while over the pages. An exception
      from extractTableData leaves `Config.entriesSize` as it was. */
  method GetAllEntries(browser: Browser, config: Config) returns (r: Result<seq<LinkedMap>>)
    requires browser.Valid()
    modifies browser, config`entriesSize
    ensures browser.Valid()
    ensures r == AllEntries(browser.pages, old(browser.current))
    ensures r.Success? ==>
      config.entriesSize == |r.value| && browser.current == LastPage(browser.pages, old(browser.current))
    ensures r.Failure? ==> config.entriesSize == old(config.entriesSize)
  {
    var headers := browser.ExtractTableHeaders();
    ghost var start := browser.current;
    ghost var pages := browser.pages;
    var allEntries := [];
    var more := true;
    assert Prepend(allEntries, PagesData(pages, start, headers)) == PagesData(pages, start, headers) by {
      assert PagesData(pages, start, headers).Success? ==> [] + PagesData(pages, start, headers).value == PagesData(pages, start, headers).value;
    }
    while more
      invariant browser.Valid() && browser.pages == pages && start <= browser.current
      invariant config.entriesSize == old(config.entriesSize)
      invariant more ==> LastPage(pages, browser.current) == LastPage(pages, start)
      invariant more ==> Prepend(allEntries, PagesData(pages, browser.current, headers)) == PagesData(pages, start, headers)
      invariant !more ==> Success(allEntries) == PagesData(pages, start, headers)
      invariant !more ==> browser.current == LastPage(pages, start)
      decreases |pages| - browser.current, more
    {
      var pageData := ExtractTableData(browser.pages[browser.current].rows, headers);
      if pageData.Failure? {
        return Failure(pageData.error);
      }
      PrependStep(pages, browser.current, headers, allEntries);
      allEntries := allEntries + pageData.value;
      more := browser.NavigateToNextPage();
    }
    config.entriesSize := |allEntries|;
    return Success(allEntries);
  }
}
