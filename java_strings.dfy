/** The few java.lang.String operations the scraper relies on, on `seq<char>`:
    `trim` (strip every char <= ' ' at both ends), `contains`, ASCII upper
    casing of one char, and `replace` of one char by another. */
module JavaStrings {

  /** The chars String.trim removes: every code point up to and including U+0020. */
  predicate IsTrimmed(c: char) { c <= ' ' }

  /** String.trim: drop the trimmable chars at both ends. */
  function Trim(s: string): string
    decreases |s|
  {
    if |s| > 0 && IsTrimmed(s[0]) then Trim(s[1..])
    else if |s| > 0 && IsTrimmed(s[|s| - 1]) then Trim(s[..|s| - 1])
    else s
  }

  /** Trim(s) sits at offset `a` of `s` with only trimmable chars around it. */
  lemma {:induction false} TrimOffset(s: string) returns (a: nat)
    ensures OccursAt(s, Trim(s), a)
    ensures forall i :: 0 <= i < a ==> IsTrimmed(s[i])
    ensures forall i :: a + |Trim(s)| <= i < |s| ==> IsTrimmed(s[i])
    decreases |s|
  {
    if |s| > 0 && IsTrimmed(s[0]) {
      var a' := TrimOffset(s[1..]);
      OccursInTail(s, Trim(s), a');
      a := a' + 1;
      assert forall i :: 1 <= i < |s| ==> s[i] == s[1..][i - 1];
    } else if |s| > 0 && IsTrimmed(s[|s| - 1]) {
      a := TrimOffset(s[..|s| - 1]);
      OccursInFront(s, |s| - 1, Trim(s), a);
      assert forall i :: 0 <= i < |s| - 1 ==> s[i] == s[..|s| - 1][i];
    } else {
      a := 0;
    }
  }

  lemma OccursInTail(s: string, t: string, i: int)
    requires |s| > 0 && OccursAt(s[1..], t, i)
    ensures OccursAt(s, t, i + 1)
  {
    assert s[1..][i..i + |t|] == s[i + 1..i + 1 + |t|];
  }

  lemma OccursInFront(s: string, n: nat, t: string, i: int)
    requires n <= |s| && OccursAt(s[..n], t, i)
    ensures OccursAt(s, t, i)
  {
    assert s[..n][i..i + |t|] == s[i..i + |t|];
  }

  /** Trim(s) neither starts nor ends with a trimmable char. */
  lemma {:induction false} TrimEnds(s: string)
    ensures Trim(s) == [] || (!IsTrimmed(Trim(s)[0]) && !IsTrimmed(Trim(s)[|Trim(s)| - 1]))
    decreases |s|
  {
    if |s| > 0 && IsTrimmed(s[0]) {
      TrimEnds(s[1..]);
    } else if |s| > 0 && IsTrimmed(s[|s| - 1]) {
      TrimEnds(s[..|s| - 1]);
    }
  }

  /** What String.trim returns: an infix of `s` that neither starts nor
      ends with a trimmable char, with only trimmable chars around it. */
  lemma TrimSpec(s: string)
    ensures var r := Trim(s);
      && (r == [] || (!IsTrimmed(r[0]) && !IsTrimmed(r[|r| - 1])))
      && exists a :: OccursAt(s, r, a)
           && (forall i :: 0 <= i < a ==> IsTrimmed(s[i]))
           && (forall i :: a + |r| <= i < |s| ==> IsTrimmed(s[i]))
  {
    TrimEnds(s);
    var a := TrimOffset(s);
  }

  /** Trimming twice is trimming once. */
  lemma TrimIdempotent(s: string)
    ensures Trim(Trim(s)) == Trim(s)
  {
    var r := Trim(s);
    TrimSpec(s);
    if r != [] {
      TrimOfUntrimmed(r);
    }
  }

  /** A string that neither starts nor ends with a trimmable char is its own trim. */
  lemma TrimOfUntrimmed(s: string)
    requires s != [] && !IsTrimmed(s[0]) && !IsTrimmed(s[|s| - 1])
    ensures Trim(s) == s
  {
  }

  /** `t` occurs in `s` at offset `i`. */
  predicate OccursAt(s: string, t: string, i: int) {
    0 <= i && i + |t| <= |s| && s[i..i + |t|] == t
  }

  /** String.contains: some offset of `s` holds `t`. */
  predicate Contains(s: string, t: string) {
    exists i | 0 <= i <= |s| - |t| :: OccursAt(s, t, i)
  }

  predicate IsAsciiDigit(c: char) { '0' <= c <= '9' }

  /** Character.toUpperCase restricted to ASCII: only 'a'..'z' change. */
  function ToUpperAscii(c: char): (u: char)
    ensures 'a' <= c <= 'z' ==> 'A' <= u <= 'Z' && u as int - c as int == 'A' as int - 'a' as int
    ensures !('a' <= c <= 'z') ==> u == c
  {
    if 'a' <= c <= 'z' then (c as int - 'a' as int + 'A' as int) as char else c
  }

  /** String.replace(from, to) for two one-char strings: position by position. */
  function ReplaceChar(s: string, from: char, to: char): (r: string)
    ensures |r| == |s|
    ensures forall i :: 0 <= i < |s| ==> r[i] == if s[i] == from then to else s[i]
    ensures from != to ==> forall i :: 0 <= i < |r| ==> r[i] != from
  {
    if s == [] then []
    else [if s[0] == from then to else s[0]] + ReplaceChar(s[1..], from, to)
  }
}
