/** The input-cleaning helper `sanitize` of the backend configuration
    (backend/config/database.php): PHP `trim`, then `stripslashes`, then
    `htmlspecialchars` with ENT_QUOTES. `null` passes through unchanged. */
module InputSanitizer {
  import opened Common
  import opened Text

  /** PHP `stripslashes`: a backslash is dropped and the character after it
      kept, except that backslash-zero becomes a NUL character; a trailing
      lone backslash is dropped. */
  function StripSlashes(s: string): (r: string)
    ensures |r| <= |s|
  {
    if s == [] then []
    else if s[0] == '\\' then
      if |s| == 1 then []
      else if s[1] == '0' then ['\0'] + StripSlashes(s[2..])
      else [s[1]] + StripSlashes(s[2..])
    else [s[0]] + StripSlashes(s[1..])
  }

  /** PHP `addslashes`: a backslash before each quote, double quote and
      backslash, and NUL written as backslash-zero. */
  function AddSlashes(s: string): (r: string)
    ensures |r| >= |s|
  {
    if s == [] then []
    else if s[0] == '\'' || s[0] == '"' || s[0] == '\\' then ['\\', s[0]] + AddSlashes(s[1..])
    else if s[0] == '\0' then ['\\', '0'] + AddSlashes(s[1..])
    else [s[0]] + AddSlashes(s[1..])
  }

  /** `stripslashes` undoes `addslashes`. */
  lemma {:induction false} StripAddSlashes(s: string)
    ensures StripSlashes(AddSlashes(s)) == s
  {
    if s != [] {
      StripAddSlashes(s[1..]);
      var a := AddSlashes(s);
      if s[0] == '\'' || s[0] == '"' || s[0] == '\\' || s[0] == '\0' {
        assert a[2..] == AddSlashes(s[1..]);
      } else {
        assert a[1..] == AddSlashes(s[1..]);
      }
    }
  }

  /** The replacement `htmlspecialchars(…, ENT_QUOTES)` makes for one character. */
  function EscapeChar(c: char): (r: string)
    ensures |r| >= 1
    ensures forall k :: 0 < k < |r| ==> r[k] != '&' && r[k] != '<' && r[k] != '>' && r[k] != '"' && r[k] != '\''
    ensures r[0] != '<' && r[0] != '>' && r[0] != '"' && r[0] != '\''
    ensures r[0] == '&' <==> |r| > 1
    ensures |r| == 1 ==> r == [c]
  {
    if c == '&' then "&amp;"
    else if c == '"' then "&quot;"
    else if c == '\'' then "&#039;"
    else if c == '<' then "&lt;"
    else if c == '>' then "&gt;"
    else [c]
  }

  /** PHP `htmlspecialchars($s, ENT_QUOTES)`, with double encoding (the default). */
  function HtmlSpecialChars(s: string): (r: string)
    ensures |r| >= |s|
  {
    if s == [] then [] else EscapeChar(s[0]) + HtmlSpecialChars(s[1..])
  }

  /** The five entities `htmlspecialchars(…, ENT_QUOTES)` writes. */
  predicate EntityAt(r: string, i: nat)
    requires i <= |r|
  {
    var t := r[i..];
    StartsWith(t, "&amp;") || StartsWith(t, "&quot;") || StartsWith(t, "&#039;")
    || StartsWith(t, "&lt;") || StartsWith(t, "&gt;")
  }

  /** Decodes the five entities, the inverse of `HtmlSpecialChars`. */
  function DecodeEntities(r: string): string
  {
    if r == [] then []
    else if StartsWith(r, "&amp;") then ['&'] + DecodeEntities(r[5..])
    else if StartsWith(r, "&quot;") then ['"'] + DecodeEntities(r[6..])
    else if StartsWith(r, "&#039;") then ['\''] + DecodeEntities(r[6..])
    else if StartsWith(r, "&lt;") then ['<'] + DecodeEntities(r[4..])
    else if StartsWith(r, "&gt;") then ['>'] + DecodeEntities(r[4..])
    else [r[0]] + DecodeEntities(r[1..])
  }

  /** Escaping loses nothing: decoding the entities gives the input back. */
  lemma {:induction false} DecodeEscaped(s: string)
    ensures DecodeEntities(HtmlSpecialChars(s)) == s
  {
    if s != [] {
      DecodeEscaped(s[1..]);
      DecodeEscapeChar(s[0], HtmlSpecialChars(s[1..]));
    }
  }

  lemma StartsWithAt(r: string, p: string, k: nat)
    requires k < |p|
    ensures StartsWith(r, p) ==> r[k] == p[k]
  {
    if StartsWith(r, p) {
      assert r[..|p|][k] == r[k];
    }
  }

  lemma DecodeEscapeChar(c: char, t: string)
    ensures DecodeEntities(EscapeChar(c) + t) == [c] + DecodeEntities(t)
  {
    var e := EscapeChar(c);
    var r := e + t;
    assert r[|e|..] == t;
    assert r[..|e|] == e;
    StartsWithAt(r, "&amp;", 0);
    StartsWithAt(r, "&quot;", 0);
    StartsWithAt(r, "&#039;", 0);
    StartsWithAt(r, "&lt;", 0);
    StartsWithAt(r, "&gt;", 0);
    StartsWithAt(r, "&amp;", 1);
    StartsWithAt(r, "&quot;", 1);
    StartsWithAt(r, "&#039;", 1);
    StartsWithAt(r, "&lt;", 1);
    StartsWithAt(r, "&gt;", 1);
  }

  /** No '<', '>', '"' or "'" is left after escaping. */
  lemma {:induction false} EscapedHasNoSpecials(s: string)
    ensures forall i :: 0 <= i < |HtmlSpecialChars(s)| ==>
      HtmlSpecialChars(s)[i] !in {'<', '>', '"', '\''}
  {
    if s != [] {
      EscapedHasNoSpecials(s[1..]);
      var e := EscapeChar(s[0]);
      var t := HtmlSpecialChars(s[1..]);
      forall i | 0 <= i < |e + t| ensures (e + t)[i] !in {'<', '>', '"', '\''} {
        if i < |e| {
          assert (e + t)[i] == e[i];
        } else {
          assert (e + t)[i] == t[i - |e|];
        }
      }
    }
  }

  lemma EntityAtShift(e: string, t: string, i: nat)
    requires i <= |t| && EntityAt(t, i)
    ensures EntityAt(e + t, |e| + i)
  {
    assert (e + t)[|e| + i..] == t[i..];
  }

  /** Every '&' after escaping is the start of one of the five entities. */
  lemma {:induction false} AmpersandsBeginEntities(s: string)
    ensures forall i :: 0 <= i < |HtmlSpecialChars(s)| && HtmlSpecialChars(s)[i] == '&' ==>
      EntityAt(HtmlSpecialChars(s), i)
  {
    if s != [] {
      AmpersandsBeginEntities(s[1..]);
      var e := EscapeChar(s[0]);
      var t := HtmlSpecialChars(s[1..]);
      assert HtmlSpecialChars(s) == e + t;
      forall i | 0 <= i < |e + t| && (e + t)[i] == '&' ensures EntityAt(e + t, i) {
        if i < |e| {
          assert (e + t)[i] == e[i];
          assert i == 0 && |e| > 1;
          assert (e + t)[0..] == e + t;
          assert (e + t)[..|e|] == e;
        } else {
          assert (e + t)[i] == t[i - |e|];
          EntityAtShift(e, t, i - |e|);
        }
      }
    }
  }

  /** `sanitize($data)`: null stays null; otherwise trim, then stripslashes,
      then htmlspecialchars with ENT_QUOTES. */
  function Sanitize(data: Option<string>): (r: Option<string>)
    ensures data.None? <==> r.None?
  {
    match data
    case None => None
    case Some(s) => Some(HtmlSpecialChars(StripSlashes(PhpTrim(s))))
  }

  /** What a sanitized string may contain: no markup characters, and every
      '&' opens an entity. */
  lemma SanitizedIsSafe(s: string)
    ensures var r := Sanitize(Some(s)).value;
      (forall i :: 0 <= i < |r| ==> r[i] !in {'<', '>', '"', '\''})
      && (forall i :: 0 <= i < |r| && r[i] == '&' ==> EntityAt(r, i))
  {
    var u := StripSlashes(PhpTrim(s));
    EscapedHasNoSpecials(u);
    AmpersandsBeginEntities(u);
  }

  /** A string with no surrounding blanks, no backslash and no markup
      character comes through `sanitize` unchanged. */
  lemma {:induction false} SanitizePlainUnchanged(s: string)
    requires PhpTrim(s) == s
    requires forall i :: 0 <= i < |s| ==> s[i] !in {'\\', '&', '<', '>', '"', '\''}
    ensures Sanitize(Some(s)) == Some(s)
  {
    PlainUnchanged(s);
  }

  lemma {:induction false} PlainUnchanged(s: string)
    requires forall i :: 0 <= i < |s| ==> s[i] !in {'\\', '&', '<', '>', '"', '\''}
    ensures StripSlashes(s) == s && HtmlSpecialChars(s) == s
  {
    if s != [] {
      PlainUnchanged(s[1..]);
    }
  }

  lemma PhpTrimNoop(s: string)
    requires s != [] && !IsPhpSpace(s[0]) && !IsPhpSpace(s[|s| - 1])
    ensures PhpTrim(s) == s
  {
    TrimStartNoop(s, IsPhpSpace);
    assert TrimEnd(s, IsPhpSpace) == s;
  }

  lemma EscapeAmpersand(a: string)
    requires a == "&"
    ensures HtmlSpecialChars(a) == "&amp;"
  {
    assert a[1..] == [];
    assert HtmlSpecialChars(a) == EscapeChar(a[0]) + HtmlSpecialChars(a[1..]);
  }

  lemma SanitizeAmpersand(a: string)
    requires a == "&"
    ensures Sanitize(Some(a)) == Some("&amp;")
  {
    PhpTrimNoop(a);
    PlainStrip(a);
    EscapeAmpersand(a);
  }

  lemma SanitizeEntity(t: string)
    requires t == "&amp;"
    ensures Sanitize(Some(t)) == Some("&amp;amp;")
  {
    PhpTrimNoop(t);
    PlainStrip(t);
    var rest := t[1..];
    assert rest == "amp;";
    PlainUnchanged(rest);
    assert HtmlSpecialChars(t) == EscapeChar(t[0]) + HtmlSpecialChars(rest);
    assert t[0] == '&';
    assert EscapeChar(t[0]) + rest == "&amp;amp;";
  }

  /** `sanitize` is not idempotent: an ampersand is encoded again on a second pass. */
  lemma SanitizeNotIdempotent()
    ensures Sanitize(Some("&")) == Some("&amp;")
    ensures Sanitize(Sanitize(Some("&"))) == Some("&amp;amp;")
    ensures Sanitize(Sanitize(Some("&"))) != Sanitize(Some("&"))
  {
    SanitizeAmpersand("&");
    SanitizeEntity("&amp;");
  }

  lemma {:induction false} PlainStrip(s: string)
    requires forall i :: 0 <= i < |s| ==> s[i] != '\\'
    ensures StripSlashes(s) == s
  {
    if s != [] {
      PlainStrip(s[1..]);
    }
  }
}
