/** The page title `clickTabAndVerify` expects after clicking a tab: the tab
    name with its first char upper-cased and every '-' after it a space. */
module TabTitle {
  import opened Outcomes
  import opened JavaStrings

  /** The expected title of line 161; `substring(0, 1)` throws on "". */
  function ExpectedTitle(tabName: string): Result<string> {
    if tabName == [] then Failure(EmptyTabName)
    else Success([ToUpperAscii(tabName[0])] + ReplaceChar(tabName[1..], '-', ' '))
  }

  /** The title fails exactly on the empty name; otherwise it has the name's
      length, its first char upper-cased, every later '-' a space, every other
      char kept, and no '-' after the first position. */
  lemma ExpectedTitleSpec(tabName: string)
    ensures ExpectedTitle(tabName).Failure? <==> tabName == []
    ensures ExpectedTitle(tabName).Failure? ==> ExpectedTitle(tabName).error == EmptyTabName
    ensures ExpectedTitle(tabName).Success? ==>
      var title := ExpectedTitle(tabName).value;
      && |title| == |tabName|
      && title[0] == ToUpperAscii(tabName[0])
      && (forall i :: 1 <= i < |title| ==> title[i] == if tabName[i] == '-' then ' ' else tabName[i])
      && (forall i :: 1 <= i < |title| ==> title[i] != '-')
  {
    if tabName != [] {
      var title := ExpectedTitle(tabName).value;
      var rest := ReplaceChar(tabName[1..], '-', ' ');
      assert forall i :: 1 <= i < |title| ==> title[i] == rest[i - 1];
    }
  }

  /** The stocks tab expects the title "Stocks". */
  lemma StocksTitle(tabName: string)
    requires tabName == "stocks"
    ensures ExpectedTitle(tabName) == Success("Stocks")
  {
    ExpectedTitleSpec(tabName);
    var title := ExpectedTitle(tabName).value;
    assert title == "Stocks" by {
      assert |title| == 6;
      assert forall i | 0 <= i < 6 :: title[i] == "Stocks"[i];
    }
  }

  /** A dashed name gets a space: "stock-cfds" expects "Stock cfds". */
  lemma DashedTitle(tabName: string)
    requires tabName == "stock-cfds"
    ensures ExpectedTitle(tabName) == Success("Stock cfds")
  {
    ExpectedTitleSpec(tabName);
    var title := ExpectedTitle(tabName).value;
    assert title == "Stock cfds" by {
      assert |title| == 10;
      assert forall i | 0 <= i < 10 :: title[i] == "Stock cfds"[i];
    }
  }
}
