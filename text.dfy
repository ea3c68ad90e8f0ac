/** String helpers shared by the backend and the front end: the whitespace
    sets and `trim` of PHP and of JavaScript, substring search (SQL
    `LIKE '%q%'` and JavaScript `includes`), and decimal digits. Strings are
    sequences of characters; there is no case folding or normalisation. */
module Text {

  /** The characters PHP's `trim` strips by default: " \t\n\r\0\x0B". */
  predicate IsPhpSpace(c: char)
  {
    c == ' ' || c == '\t' || c == '\n' || c == '\r' || c == '\0' || c == '\U{000B}'
  }

  /** The characters of JavaScript's `\s` class and `String.prototype.trim`. */
  predicate IsJsSpace(c: char)
  {
    c == ' ' || c == '\t' || c == '\n' || c == '\r' || c == '\U{000B}' || c == '\U{000C}'
    || c == '\U{00A0}' || c == '\U{1680}' || ('\U{2000}' <= c <= '\U{200A}')
    || c == '\U{2028}' || c == '\U{2029}' || c == '\U{202F}' || c == '\U{205F}'
    || c == '\U{3000}' || c == '\U{FEFF}'
  }

  /** Removes the leading characters satisfying `sp`. */
  function TrimStart(s: string, sp: char -> bool): (r: string)
    ensures |r| <= |s| && r == s[|s| - |r|..]
    ensures r != [] ==> !sp(r[0])
    ensures forall i :: 0 <= i < |s| - |r| ==> sp(s[i])
  {
    if s != [] && sp(s[0]) then TrimStart(s[1..], sp) else s
  }

  /** Removes the trailing characters satisfying `sp`. */
  function TrimEnd(s: string, sp: char -> bool): (r: string)
    ensures |r| <= |s| && r == s[..|r|]
    ensures r != [] ==> !sp(r[|r| - 1])
    ensures forall i :: |r| <= i < |s| ==> sp(s[i])
  {
    if s != [] && sp(s[|s| - 1]) then TrimEnd(s[..|s| - 1], sp) else s
  }

  function Trim(s: string, sp: char -> bool): (r: string)
    ensures |r| <= |s|
    ensures r != [] ==> !sp(r[0]) && !sp(r[|r| - 1])
  {
    TrimEnd(TrimStart(s, sp), sp)
  }

  /** PHP `trim($s)`. */
  function PhpTrim(s: string): string
  {
    Trim(s, IsPhpSpace)
  }

  /** JavaScript `s.trim()`. */
  function JsTrim(s: string): string
  {
    Trim(s, IsJsSpace)
  }

  lemma {:induction false} TrimStartNoop(s: string, sp: char -> bool)
    requires s == [] || !sp(s[0])
    ensures TrimStart(s, sp) == s
  {
  }

  /** A trimmed string is its own trim. */
  lemma {:induction false} TrimIdempotent(s: string, sp: char -> bool)
    ensures Trim(Trim(s, sp), sp) == Trim(s, sp)
  {
    var r := Trim(s, sp);
    TrimStartNoop(r, sp);
    assert TrimEnd(r, sp) == r;
  }

  /** The trim is empty exactly when every character is stripped. */
  lemma TrimEmptyIff(s: string, sp: char -> bool)
    ensures Trim(s, sp) == [] <==> forall i :: 0 <= i < |s| ==> sp(s[i])
  {
    var r := TrimStart(s, sp);
    if r != [] {
      assert s[|s| - |r|] == r[0] && !sp(r[0]);
    }
  }

  lemma SliceOfSuffix(s: string, a: nat, n: nat)
    requires a + n <= |s|
    ensures s[a..][..n] == s[a..a + n]
  {
  }

  /** The trim is the part of `s` that starts after the stripped prefix. */
  lemma TrimIsInfix(s: string, sp: char -> bool, a: nat)
    requires a == |s| - |TrimStart(s, sp)|
    ensures a + |Trim(s, sp)| <= |s| && Trim(s, sp) == s[a..a + |Trim(s, sp)|]
  {
    var front := TrimStart(s, sp);
    var t := TrimEnd(front, sp);
    assert Trim(s, sp) == t;
    SliceOfSuffix(s, a, |t|);
  }

  /** `p` is a prefix of `s`. */
  predicate StartsWith(s: string, p: string)
  {
    |p| <= |s| && s[..|p|] == p
  }

  /** `p` occurs in `s` (SQL `s LIKE '%p%'` without wildcards in `p`;
      JavaScript `s.includes(p)`), searched from the left. */
  predicate Contains(s: string, p: string)
    decreases |s|
  {
    StartsWith(s, p) || (s != [] && Contains(s[1..], p))
  }

  /** `p` occurs in `s` at position `i`. */
  predicate OccursAt(s: string, p: string, i: int)
  {
    0 <= i && i + |p| <= |s| && s[i..i + |p|] == p
  }

  lemma OccursShift(s: string, p: string, i: int)
    requires s != [] && i > 0 && OccursAt(s, p, i)
    ensures OccursAt(s[1..], p, i - 1)
  {
    assert s[1..][i - 1..i - 1 + |p|] == s[i..i + |p|];
  }

  lemma OccursUnshift(s: string, p: string, i: int)
    requires s != [] && OccursAt(s[1..], p, i)
    ensures OccursAt(s, p, i + 1)
  {
    assert s[1..][i..i + |p|] == s[i + 1..i + 1 + |p|];
  }

  /** The search agrees with the definition by position. */
  lemma {:induction false} ContainsIff(s: string, p: string)
    ensures Contains(s, p) <==> exists i :: OccursAt(s, p, i)
    decreases |s|
  {
    if s != [] {
      ContainsIff(s[1..], p);
    }
    if Contains(s, p) {
      if StartsWith(s, p) {
        assert OccursAt(s, p, 0);
      } else {
        var i :| OccursAt(s[1..], p, i);
        OccursUnshift(s, p, i);
      }
    }
    if exists i :: OccursAt(s, p, i) {
      var i :| OccursAt(s, p, i);
      if i == 0 {
        assert s[..|p|] == s[0..0 + |p|];
      } else {
        OccursShift(s, p, i);
      }
    }
  }

  /** The empty pattern occurs everywhere. */
  lemma ContainsEmpty(s: string)
    ensures Contains(s, "")
  {
    assert StartsWith(s, "");
  }

  /** A string occurs in any concatenation that has it in the middle. */
  lemma ContainsInfix(a: string, b: string, c: string)
    ensures Contains(a + b + c, b)
  {
    var s := a + b + c;
    assert s[|a|..|a| + |b|] == b;
    assert OccursAt(s, b, |a|);
    ContainsIff(s, b);
  }

  /** The trim of a string occurs in it. */
  lemma TrimOccurs(s: string, sp: char -> bool)
    ensures Contains(s, Trim(s, sp))
  {
    var a := |s| - |TrimStart(s, sp)|;
    TrimIsInfix(s, sp, a);
    var t := Trim(s, sp);
    SplitAround(s, a, |t|);
    ContainsInfix(s[..a], t, s[a + |t|..]);
  }

  lemma SplitAround(s: string, a: nat, n: nat)
    requires a + n <= |s|
    ensures s == s[..a] + s[a..a + n] + s[a + n..]
  {
  }

  /** PHP `str_replace(p, '', s)`: every occurrence of `p`, scanning from the
      left and never overlapping, removed. */
  function RemoveAll(s: string, p: string): (r: string)
    requires p != []
    ensures |r| <= |s|
    decreases |s|
  {
    if |s| < |p| then s
    else if s[..|p|] == p then RemoveAll(s[|p|..], p)
    else [s[0]] + RemoveAll(s[1..], p)
  }

  /** A string without the pattern passes through unchanged. */
  lemma {:induction false} RemoveAllAbsent(s: string, p: string)
    requires p != [] && !Contains(s, p)
    ensures RemoveAll(s, p) == s
    decreases |s|
  {
    if |s| >= |p| {
      assert !StartsWith(s, p);
      RemoveAllAbsent(s[1..], p);
    }
  }

  /** Every string occurs in itself. */
  lemma ContainsSelf(s: string)
    ensures Contains(s, s)
  {
    assert StartsWith(s, s);
  }

  function DigitChar(d: nat): (c: char)
    requires d < 10
    ensures '0' <= c <= '9'
  {
    ['0', '1', '2', '3', '4', '5', '6', '7', '8', '9'][d]
  }

  function DigitValue(c: char): (d: nat)
    requires '0' <= c <= '9'
    ensures d < 10 && DigitChar(d) == c
  {
    if c == '0' then 0 else if c == '1' then 1 else if c == '2' then 2
    else if c == '3' then 3 else if c == '4' then 4 else if c == '5' then 5
    else if c == '6' then 6 else if c == '7' then 7 else if c == '8' then 8
    else 9
  }

  predicate AllDigits(s: string)
  {
    forall i :: 0 <= i < |s| ==> '0' <= s[i] <= '9'
  }

  /** JavaScript `String(n)` for a natural number: its decimal digits. */
  function DecimalString(n: nat): (r: string)
    ensures |r| >= 1 && AllDigits(r)
    ensures n < 10 <==> |r| == 1
  {
    if n < 10 then [DigitChar(n)] else DecimalString(n / 10) + [DigitChar(n % 10)]
  }

  /** The value of a string of decimal digits (empty reads as 0). */
  function DecimalValue(s: string): nat
    requires AllDigits(s)
  {
    if s == [] then 0 else 10 * DecimalValue(s[..|s| - 1]) + DigitValue(s[|s| - 1])
  }

  /** Printing a number and reading it back gives the number. */
  lemma {:induction false} DecimalRoundTrip(n: nat)
    ensures DecimalValue(DecimalString(n)) == n
  {
    var s := DecimalString(n);
    DigitRoundTrip(n % 10);
    if n >= 10 {
      DecimalRoundTrip(n / 10);
      assert s[..|s| - 1] == DecimalString(n / 10);
      assert s[|s| - 1] == DigitChar(n % 10);
      assert DecimalValue(s) == 10 * (n / 10) + n % 10;
    }
  }

  lemma DigitRoundTrip(d: nat)
    requires d < 10
    ensures DigitValue(DigitChar(d)) == d
  {
  }

  /** JavaScript `String(n).padStart(2, '0')`. */
  function Pad2(n: nat): (r: string)
    ensures |r| >= 2 && AllDigits(r)
    ensures DecimalValue(r) == n
    ensures n >= 10 ==> r == DecimalString(n)
  {
    DecimalRoundTrip(n);
    if n < 10 then
      var r := ['0'] + DecimalString(n);
      assert r[..|r| - 1] == ['0'];
      r
    else DecimalString(n)
  }
}
