/** `entriesCount`: the total N of the table footer
    "Showing a to b of N entries" must equal the number of rows collected. The
    regular expression `Showing \d+ to \d+ of (\d+) entries` is spelled out: a
    match at an offset is the literal parts with a maximal run of digits
    between them, and `find()` takes the leftmost offset that matches. */
module EntriesCount {
  import opened Outcomes
  import opened JavaStrings
  import opened Pagination

  /** Integer.MAX_VALUE: Integer.parseInt rejects anything larger. */
  const MaxInt := 2147483647

  const Showing := "Showing "
  const To := " to "
  const Of := " of "
  const Entries := " entries"

  predicate AllDigits(s: string) {
    forall i :: 0 <= i < |s| ==> IsAsciiDigit(s[i])
  }

  /** The text the pattern matches when its three groups of digits are a, b and c. */
  function Pattern(a: string, b: string, c: string): string {
    Showing + (a + To) + (b + Of) + (c + Entries)
  }

  /** The length of the run of digits of `s` that starts at i. */
  function DigitRun(s: string, i: nat): (n: nat)
    requires i <= |s|
    ensures i + n <= |s|
    decreases |s| - i
  {
    if i < |s| && IsAsciiDigit(s[i]) then 1 + DigitRun(s, i + 1) else 0
  }

  /** The run is all digits, and is maximal. */
  lemma {:induction false} DigitRunSpec(s: string, i: nat)
    requires i <= |s|
    ensures forall k :: i <= k < i + DigitRun(s, i) ==> IsAsciiDigit(s[k])
    ensures i + DigitRun(s, i) < |s| ==> !IsAsciiDigit(s[i + DigitRun(s, i)])
    decreases |s| - i
  {
    if i < |s| && IsAsciiDigit(s[i]) {
      DigitRunSpec(s, i + 1);
    }
  }

  /** `\d+` at i followed by the literal `lit`: the offset after `lit`. The
      literals all start with a space, so the greedy `\d+` never gives a
      digit back and the run of digits is all it can take. */
  function DigitsThen(s: string, i: nat, lit: string): Option<nat> {
    if i > |s| then None
    else
      var n := DigitRun(s, i);
      if n > 0 && OccursAt(s, lit, i + n) then Some(i + n + |lit|) else None
  }

  /** The `(\d+)` group when the pattern matches at offset p. */
  function MatchAt(s: string, p: nat): Option<string> {
    if !OccursAt(s, Showing, p) then None
    else
      var e1 := DigitsThen(s, p + |Showing|, To);
      if e1.None? then None
      else
        var e2 := DigitsThen(s, e1.value, Of);
        if e2.None? then None
        else
          var e3 := DigitsThen(s, e2.value, Entries);
          if e3.None? then None
          else Some(s[e2.value..e3.value - |Entries|])
  }

  /** Matcher.find() from offset p: the group of the leftmost match. */
  function FindFrom(s: string, p: nat): Option<string>
    decreases |s| - p
  {
    if p > |s| then None
    else if MatchAt(s, p).Some? then MatchAt(s, p)
    else FindFrom(s, p + 1)
  }

  // ---------------------------------------------------------------------
  // The scanner against the pattern
  // ---------------------------------------------------------------------

  lemma OccursAtConcat(s: string, x: string, y: string, p: nat)
    ensures OccursAt(s, x + y, p) <==> OccursAt(s, x, p) && OccursAt(s, y, p + |x|)
  {
    if OccursAt(s, x, p) && OccursAt(s, y, p + |x|) {
      assert s[p..p + |x + y|] == s[p..p + |x|] + s[p + |x|..p + |x| + |y|];
    }
    if OccursAt(s, x + y, p) {
      assert s[p..p + |x|] == (x + y)[..|x|];
      assert s[p + |x|..p + |x| + |y|] == (x + y)[|x|..];
    }
  }

  /** A digit string in `s` at i that a non-digit follows is the run at i. */
  lemma {:induction false} DigitRunOf(s: string, d: string, i: nat)
    requires OccursAt(s, d, i) && AllDigits(d) && i + |d| < |s| && !IsAsciiDigit(s[i + |d|])
    ensures DigitRun(s, i) == |d|
    decreases |d|
  {
    if |d| > 0 {
      assert s[i] == d[0];
      assert s[i + 1..i + 1 + |d[1..]|] == d[1..];
      DigitRunOf(s, d[1..], i + 1);
    }
  }

  /** What DigitsThen accepts is a non-empty digit string followed by `lit`. */
  lemma DigitsThenSound(s: string, i: nat, lit: string) returns (d: string)
    requires DigitsThen(s, i, lit).Some?
    ensures |d| > 0 && AllDigits(d) && OccursAt(s, d + lit, i)
    ensures DigitsThen(s, i, lit).value == i + |d| + |lit|
  {
    d := s[i..i + DigitRun(s, i)];
    DigitRunSpec(s, i);
    OccursAtConcat(s, d, lit, i);
  }

  /** ... and each such string is accepted. */
  lemma DigitsThenComplete(s: string, i: nat, d: string, lit: string) returns (e: nat)
    requires |d| > 0 && AllDigits(d) && |lit| > 0 && !IsAsciiDigit(lit[0])
    requires OccursAt(s, d + lit, i)
    ensures e == i + |d| + |lit| && DigitsThen(s, i, lit) == Some(e)
  {
    e := i + |d| + |lit|;
    OccursAtConcat(s, d, lit, i);
    assert s[i + |d|] == lit[0] by {
      SliceHeadAt(s, i + |d|, lit);
    }
    DigitRunOf(s, d, i);
  }

  lemma SliceHeadAt(s: string, i: nat, t: string)
    requires |t| > 0 && OccursAt(s, t, i)
    ensures s[i] == t[0]
  {
    assert s[i..i + |t|][0] == s[i];
  }

  /** The pattern at p, piece by piece. */
  lemma PatternAt(s: string, a: string, b: string, c: string, p: nat)
    ensures OccursAt(s, Pattern(a, b, c), p) <==>
      && OccursAt(s, Showing, p)
      && OccursAt(s, a + To, p + |Showing|)
      && OccursAt(s, b + Of, p + |Showing| + |a| + |To|)
      && OccursAt(s, c + Entries, p + |Showing| + |a| + |To| + |b| + |Of|)
  {
    OccursAtConcat(s, Showing + (a + To) + (b + Of), c + Entries, p);
    OccursAtConcat(s, Showing + (a + To), b + Of, p);
    OccursAtConcat(s, Showing, a + To, p);
  }

  /** Each match of the scanner is a match of the pattern, with the digits
      before "to" and before "of" as the other two groups. */
  lemma MatchAtSound(s: string, p: nat) returns (a: string, b: string)
    requires MatchAt(s, p).Some?
    ensures var c := MatchAt(s, p).value;
      && |a| > 0 && |b| > 0 && |c| > 0 && AllDigits(a) && AllDigits(b) && AllDigits(c)
      && OccursAt(s, Pattern(a, b, c), p)
  {
    var e1 := DigitsThen(s, p + |Showing|, To).value;
    var e2 := DigitsThen(s, e1, Of).value;
    a := DigitsThenSound(s, p + |Showing|, To);
    b := DigitsThenSound(s, e1, Of);
    var c := DigitsThenSound(s, e2, Entries);
    assert MatchAt(s, p).value == c by {
      SliceOfConcat(s, c, Entries, e2);
    }
    PatternAt(s, a, b, c, p);
  }

  lemma SliceOfConcat(s: string, x: string, y: string, i: nat)
    requires OccursAt(s, x + y, i)
    ensures s[i..i + |x|] == x
  {
    OccursAtConcat(s, x, y, i);
  }

  /** Each match of the pattern is a match of the scanner, with the same group. */
  lemma MatchAtComplete(s: string, a: string, b: string, c: string, p: nat)
    requires |a| > 0 && |b| > 0 && |c| > 0 && AllDigits(a) && AllDigits(b) && AllDigits(c)
    requires OccursAt(s, Pattern(a, b, c), p)
    ensures MatchAt(s, p) == Some(c)
  {
    var e1, e2, e3 := PatternSteps(s, a, b, c, p);
    MatchAtOf(s, p, e1, e2, e3);
  }

  /** The three steps of the scanner over a match of the pattern. */
  lemma PatternSteps(s: string, a: string, b: string, c: string, p: nat) returns (e1: nat, e2: nat, e3: nat)
    requires |a| > 0 && |b| > 0 && |c| > 0 && AllDigits(a) && AllDigits(b) && AllDigits(c)
    requires OccursAt(s, Pattern(a, b, c), p)
    ensures OccursAt(s, Showing, p)
    ensures DigitsThen(s, p + |Showing|, To) == Some(e1)
    ensures DigitsThen(s, e1, Of) == Some(e2)
    ensures DigitsThen(s, e2, Entries) == Some(e3)
    ensures e2 + |c| == e3 - |Entries| <= |s| && s[e2..e3 - |Entries|] == c
  {
    PatternAt(s, a, b, c, p);
    e1 := DigitsThenComplete(s, p + |Showing|, a, To);
    e2 := DigitsThenComplete(s, e1, b, Of);
    e3 := DigitsThenComplete(s, e2, c, Entries);
    SliceOfConcat(s, c, Entries, e2);
  }

  /** MatchAt at p once the three literal-and-digits steps are known. */
  lemma MatchAtOf(s: string, p: nat, e1: nat, e2: nat, e3: nat)
    requires OccursAt(s, Showing, p)
    requires DigitsThen(s, p + |Showing|, To) == Some(e1)
    requires DigitsThen(s, e1, Of) == Some(e2)
    requires DigitsThen(s, e2, Entries) == Some(e3)
    ensures e2 <= e3 - |Entries| <= |s|
    ensures MatchAt(s, p) == Some(s[e2..e3 - |Entries|])
  {
  }

  /** find() reports the group of the leftmost offset at or after p that matches. */
  lemma {:induction false} FindFromSome(s: string, p: nat) returns (q: nat)
    requires FindFrom(s, p).Some?
    ensures p <= q <= |s| && MatchAt(s, q) == FindFrom(s, p)
    ensures forall o :: p <= o < q ==> MatchAt(s, o).None?
    decreases |s| - p
  {
    if MatchAt(s, p).Some? {
      q := p;
    } else {
      q := FindFromSome(s, p + 1);
    }
  }

  /** find() fails exactly when no offset at or after p matches. */
  lemma {:induction false} FindFromNone(s: string, p: nat)
    ensures FindFrom(s, p).None? <==> forall o :: p <= o <= |s| ==> MatchAt(s, o).None?
    decreases |s| - p
  {
    if p <= |s| && MatchAt(s, p).None? {
      FindFromNone(s, p + 1);
    }
  }

  // ---------------------------------------------------------------------
  // Integer.parseInt
  // ---------------------------------------------------------------------

  /** The decimal value of a digit string, as Integer.parseInt reads it. */
  function DigitsValue(ds: string): nat
    decreases |ds|
  {
    if ds == [] then 0
    else 10 * DigitsValue(ds[..|ds| - 1]) + ((ds[|ds| - 1] as int - '0' as int) % 10)
  }

  /** The decimal digits of n, without leading zeros ("0" for zero). */
  function DecimalDigits(n: nat): string
    decreases n
  {
    if n < 10 then [('0' as int + n) as char]
    else DecimalDigits(n / 10) + [('0' as int + n % 10) as char]
  }

  /** entriesCount (lines 409-430) on the footer text and Config.entriesSize. */
  function CountCheck(footer: string, entriesSize: int): Outcome {
    var group := FindFrom(footer, 0);
    if group.None? then Fail(NoCountFound)
    else if DigitsValue(group.value) > MaxInt then Fail(NumberFormat(group.value))
    else if DigitsValue(group.value) != entriesSize then Fail(CountMismatch(DigitsValue(group.value), entriesSize))
    else Pass
  }

  /** DecimalDigits writes digits only. */
  lemma {:induction false} DecimalDigitsAreDigits(n: nat)
    ensures |DecimalDigits(n)| > 0 && AllDigits(DecimalDigits(n))
    decreases n
  {
    if n >= 10 {
      DecimalDigitsAreDigits(n / 10);
    }
  }

  /** Reading back the decimal digits of n gives n. */
  lemma {:induction false} DigitsValueOfDecimal(n: nat)
    ensures DigitsValue(DecimalDigits(n)) == n
    decreases n
  {
    var ds := DecimalDigits(n);
    if n >= 10 {
      DigitsValueOfDecimal(n / 10);
      assert ds[..|ds| - 1] == DecimalDigits(n / 10);
    }
  }

  /** k digits stay below 10^k. */
  lemma {:induction false} DigitsValueBelow(ds: string)
    ensures DigitsValue(ds) < Power10(|ds|)
    decreases |ds|
  {
    if ds != [] {
      DigitsValueBelow(ds[..|ds| - 1]);
    }
  }

  lemma {:induction false} Power10Monotonic(j: nat, k: nat)
    requires j <= k
    ensures Power10(j) <= Power10(k)
    decreases k
  {
    if j < k {
      Power10Monotonic(j, k - 1);
    }
  }

  /** parseInt accepts every group of at most nine digits: NumberFormat needs ten or more. */
  lemma ShortGroupParses(ds: string)
    requires |ds| <= 9
    ensures DigitsValue(ds) < 1000000000 < MaxInt
  {
    DigitsValueBelow(ds);
    Power10Monotonic(|ds|, 9);
  }

  function Power10(k: nat): (p: nat)
    ensures p > 0
  {
    if k == 0 then 1 else 10 * Power10(k - 1)
  }

  // ---------------------------------------------------------------------
  // The check
  // ---------------------------------------------------------------------

  /** The check passes exactly when some offset matches, the leftmost match's
      group is a value parseInt accepts, and it equals entriesSize; with no
      match it fails on the TestNG assertion. */
  lemma CountCheckSpec(footer: string, entriesSize: int)
    ensures CountCheck(footer, entriesSize) == Fail(NoCountFound) <==>
      forall o :: 0 <= o <= |footer| ==> MatchAt(footer, o).None?
    ensures CountCheck(footer, entriesSize) == Pass <==>
      FindFrom(footer, 0).Some? && DigitsValue(FindFrom(footer, 0).value) == entriesSize <= MaxInt
  {
    FindFromNone(footer, 0);
  }

  /** A footer that starts with the pattern reports its third group: the
      check passes when that group is the decimal form of the number of rows. */
  lemma CountCheckOfFooter(a: string, b: string, rest: string, n: nat)
    requires |a| > 0 && |b| > 0 && AllDigits(a) && AllDigits(b) && n <= MaxInt
    ensures CountCheck(Pattern(a, b, DecimalDigits(n)) + rest, n) == Pass
    ensures CountCheck(Pattern(a, b, DecimalDigits(n)) + rest, n + 1) == Fail(CountMismatch(n, n + 1))
  {
    var c := DecimalDigits(n);
    var s := Pattern(a, b, c) + rest;
    DecimalDigitsAreDigits(n);
    DigitsValueOfDecimal(n);
    assert s[0..|Pattern(a, b, c)|] == Pattern(a, b, c);
    MatchAtComplete(s, a, b, c, 0);
  }

  /** The footer of the example in the source comment, "Showing 1 to 10 of
      23 entries (filtered from 1,311 total entries)", reports 23 entries. */
  lemma FooterExample(footer: string)
    requires footer == Pattern("1", "10", "23") + " (filtered from 1,311 total entries)"
    ensures CountCheck(footer, 23) == Pass
    ensures CountCheck(footer, 1311) == Fail(CountMismatch(23, 1311))
  {
    assert DecimalDigits(23) == "23";
    CountCheckOfFooter("1", "10", " (filtered from 1,311 total entries)", 23);
    assert CountCheck(footer, 23) == Pass;
  }

  /** entriesCount on the page the browser shows, against Config.entriesSize. */
  method CheckEntriesCount(browser: Browser, config: Config) returns (o: Outcome)
    requires browser.Valid()
    ensures o == CountCheck(browser.pages[browser.current].footer, config.entriesSize)
  {
    var footer := browser.pages[browser.current].footer;
    o := CountCheck(footer, config.entriesSize);
  }
}
