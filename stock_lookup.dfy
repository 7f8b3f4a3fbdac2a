/** `findStockData`: the first row, in the order getAllEntries collected
    them, that holds the stock symbol as one of its values. */
module StockLookup {
  import opened Outcomes
  import opened LinkedMaps
  import opened Pagination

  /** The first entry holding `symbol` as a value; None is Java's null. */
  function FirstWithValue(entries: seq<LinkedMap>, symbol: string): Option<LinkedMap>
    decreases |entries|
  {
    if entries == [] then None
    else if HasValue(entries[0], symbol) then Some(entries[0])
    else FirstWithValue(entries[1..], symbol)
  }

  /** No entry holds the symbol exactly when the lookup finds nothing. */
  lemma {:induction false} FirstWithValueNone(entries: seq<LinkedMap>, symbol: string)
    ensures FirstWithValue(entries, symbol).None? <==>
      forall i :: 0 <= i < |entries| ==> !HasValue(entries[i], symbol)
    decreases |entries|
  {
    if entries != [] {
      FirstWithValueNone(entries[1..], symbol);
      assert forall i :: 1 <= i < |entries| ==> entries[i] == entries[1..][i - 1];
    }
  }

  /** A found entry is the entry at some position i that holds the symbol,
      and no entry before i does. */
  lemma {:induction false} FirstWithValueSome(entries: seq<LinkedMap>, symbol: string) returns (i: nat)
    requires FirstWithValue(entries, symbol).Some?
    ensures i < |entries| && entries[i] == FirstWithValue(entries, symbol).value
    ensures HasValue(entries[i], symbol)
    ensures forall j :: 0 <= j < i ==> !HasValue(entries[j], symbol)
    decreases |entries|
  {
    if HasValue(entries[0], symbol) {
      i := 0;
    } else {
      var i' := FirstWithValueSome(entries[1..], symbol);
      i := i' + 1;
      assert forall j :: 1 <= j <= i ==> entries[j] == entries[1..][j - 1];
    }
  }

  /** The loop of findStockData (lines 367-374), returning at the first match. */
  method FindEntry(allEntries: seq<LinkedMap>, symbol: string) returns (r: Option<LinkedMap>)
    ensures r == FirstWithValue(allEntries, symbol)
  {
    var i := 0;
    while i < |allEntries|
      invariant i <= |allEntries|
      invariant FirstWithValue(allEntries, symbol) == FirstWithValue(allEntries[i..], symbol)
    {
      var entry := allEntries[i];
      if symbol in entry.values.Values {
        return Some(entry);
      }
      assert allEntries[i..][1..] == allEntries[i + 1..];
      i := i + 1;
    }
    return None;
  }

  /** findStockData (lines 365-375): every page is collected, then searched. */
  method FindStockData(browser: Browser, config: Config, symbol: string) returns (r: Result<Option<LinkedMap>>)
    requires browser.Valid()
    modifies browser, config`entriesSize
    ensures browser.Valid()
    ensures AllEntries(browser.pages, old(browser.current)).Failure? ==>
      r == Failure(AllEntries(browser.pages, old(browser.current)).error)
    ensures AllEntries(browser.pages, old(browser.current)).Success? ==>
      r == Success(FirstWithValue(AllEntries(browser.pages, old(browser.current)).value, symbol))
    ensures AllEntries(browser.pages, old(browser.current)).Success? ==>
      && config.entriesSize == |AllEntries(browser.pages, old(browser.current)).value|
      && browser.current == LastPage(browser.pages, old(browser.current))
    ensures AllEntries(browser.pages, old(browser.current)).Failure? ==>
      config.entriesSize == old(config.entriesSize)
  {
    var allEntries := GetAllEntries(browser, config);
    if allEntries.Failure? {
      return Failure(allEntries.error);
    }
    var entry := FindEntry(allEntries.value, symbol);
    return Success(entry);
  }
}
