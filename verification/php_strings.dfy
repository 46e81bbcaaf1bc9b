/**
 PHP's `trim()` with its default character list, and `htmlspecialchars()` as the
 fixed five-character replacement it performs on well-formed text (with the
 `ENT_QUOTES` default, so the single quote is escaped as `&#039;`). `Decode` is
 the inverse entity reading, used to state what escaping preserves.
 */
module PhpStrings {

  /** The characters `trim()` strips by default: space, tab, LF, CR, NUL and vertical tab. */
  predicate IsTrimChar(c: char) {
    c == ' ' || c == '\t' || c == '\n' || c == '\r' || c == '\0' || c == '\U{0B}'
  }

  /** A string with no strippable character at either end. */
  predicate IsTrimmed(s: string) {
    |s| > 0 ==> !IsTrimChar(s[0]) && !IsTrimChar(s[|s| - 1])
  }

  /** Every character of `s` is strippable. */
  predicate AllTrimChars(s: string) {
    forall i :: 0 <= i < |s| ==> IsTrimChar(s[i])
  }

  /** How many strippable characters `s` starts with. */
  function LeadingTrimCount(s: string): (n: nat)
    ensures n <= |s|
    ensures forall i :: 0 <= i < n ==> IsTrimChar(s[i])
    ensures n < |s| ==> !IsTrimChar(s[n])
  {
    if |s| > 0 && IsTrimChar(s[0]) then 1 + LeadingTrimCount(s[1..]) else 0
  }

  /** How many strippable characters `s` ends with. */
  function TrailingTrimCount(s: string): (n: nat)
    ensures n <= |s|
    ensures forall i :: |s| - n <= i < |s| ==> IsTrimChar(s[i])
    ensures n < |s| ==> !IsTrimChar(s[|s| - n - 1])
  {
    if |s| > 0 && IsTrimChar(s[|s| - 1]) then 1 + TrailingTrimCount(s[..|s| - 1]) else 0
  }

  /** `ltrim()`: drops the longest prefix made of strippable characters. */
  function TrimLeft(s: string): (r: string)
    ensures |r| <= |s|
    ensures forall i :: 0 <= i < |s| - |r| ==> IsTrimChar(s[i])
    ensures forall i :: 0 <= i < |r| ==> r[i] == s[|s| - |r| + i]
    ensures |r| > 0 ==> !IsTrimChar(r[0])
  {
    s[LeadingTrimCount(s)..]
  }

  /** `rtrim()`: drops the longest suffix made of strippable characters. */
  function TrimRight(s: string): (r: string)
    ensures |r| <= |s|
    ensures forall i :: |r| <= i < |s| ==> IsTrimChar(s[i])
    ensures forall i :: 0 <= i < |r| ==> r[i] == s[i]
    ensures |r| > 0 ==> !IsTrimChar(r[|r| - 1])
  {
    s[..|s| - TrailingTrimCount(s)]
  }

  /** `r` is `s` with the first `a` characters and the tail after `r` cut away, all of them strippable. */
  predicate IsStrippedSlice(s: string, a: int, r: string) {
    && 0 <= a <= |s| - |r|
    && r == s[a..a + |r|]
    && (forall i :: 0 <= i < a ==> IsTrimChar(s[i]))
    && (forall i :: a + |r| <= i < |s| ==> IsTrimChar(s[i]))
  }

  /**
   `trim()`: the result is a contiguous slice of `s`, everything cut away on
   either side is strippable, and the result itself starts and ends with a
   character that is not.
   */
  function Trim(s: string): (r: string)
    ensures IsTrimmed(r)
    ensures exists a :: IsStrippedSlice(s, a, r)
  {
    var l := TrimLeft(s);
    var r := TrimRight(l);
    StrippedSliceOfParts(s, l, r);
    r
  }

  /** Stripping a prefix and then a suffix of strippable characters leaves a stripped slice. */
  lemma StrippedSliceOfParts(s: string, l: string, r: string)
    requires |l| <= |s| && forall i :: 0 <= i < |s| - |l| ==> IsTrimChar(s[i])
    requires forall i :: 0 <= i < |l| ==> l[i] == s[|s| - |l| + i]
    requires |r| <= |l| && forall i :: |r| <= i < |l| ==> IsTrimChar(l[i])
    requires forall i :: 0 <= i < |r| ==> r[i] == l[i]
    ensures IsStrippedSlice(s, |s| - |l|, r)
  {
    var a := |s| - |l|;
    forall i | a + |r| <= i < |s| ensures IsTrimChar(s[i]) {
      assert s[i] == l[i - a];
    }
    assert r == s[a..a + |r|];
  }

  /** Trimming an already trimmed string changes nothing. */
  lemma TrimOfTrimmed(s: string)
    requires IsTrimmed(s)
    ensures Trim(s) == s
  {
  }

  /** `trim()` is idempotent. */
  lemma TrimIdempotent(s: string)
    ensures Trim(Trim(s)) == Trim(s)
  {
  }

  /** `trim()` yields the empty string exactly for whitespace-only (or empty) input. */
  lemma TrimEmptyIffAllTrimChars(s: string)
    ensures Trim(s) == "" <==> AllTrimChars(s)
  {
  }

  /** The entity (or the character itself) `htmlspecialchars()` writes for one character. */
  function EscapeChar(c: char): (r: string)
    ensures |r| > 0
  {
    if c == '&' then "&amp;"
    else if c == '<' then "&lt;"
    else if c == '>' then "&gt;"
    else if c == '"' then "&quot;"
    else if c == '\'' then "&#039;"
    else [c]
  }

  /** The characters HTML markup gives a meaning to, which escaped text never holds raw. */
  predicate IsMarkupChar(c: char) {
    c == '<' || c == '>' || c == '"' || c == '\''
  }

  /**
   `htmlspecialchars()`: each character replaced by its entity. The result holds no
   raw markup character and is empty exactly when the input is.
   */
  function HtmlSpecialChars(s: string): (r: string)
    ensures forall i :: 0 <= i < |r| ==> !IsMarkupChar(r[i])
    ensures |r| >= |s|
    ensures |r| == 0 <==> |s| == 0
  {
    if |s| == 0 then ""
    else EscapeChar(s[0]) + HtmlSpecialChars(s[1..])
  }

  /** Reads back the five entities `htmlspecialchars()` writes; every other character is kept. */
  function Decode(s: string): (r: string)
    decreases |s|
  {
    if |s| == 0 then ""
    else if "&amp;" <= s then "&" + Decode(s[5..])
    else if "&lt;" <= s then "<" + Decode(s[4..])
    else if "&gt;" <= s then ">" + Decode(s[4..])
    else if "&quot;" <= s then "\"" + Decode(s[6..])
    else if "&#039;" <= s then "'" + Decode(s[6..])
    else [s[0]] + Decode(s[1..])
  }

  lemma DecodeEscapeChar(c: char, t: string)
    ensures Decode(EscapeChar(c) + t) == [c] + Decode(t)
  {
    var e := EscapeChar(c);
    assert (e + t)[|e|..] == t;
    if c == '&' {
      assert "&amp;" <= e + t && (e + t)[1] == 'a';
    } else if c == '<' {
      assert "&lt;" <= e + t && (e + t)[1] == 'l';
    } else if c == '>' {
      assert "&gt;" <= e + t && (e + t)[1] == 'g';
    } else if c == '"' {
      assert "&quot;" <= e + t && (e + t)[1] == 'q';
    } else if c == '\'' {
      assert "&#039;" <= e + t && (e + t)[1] == '#';
    } else {
      assert (e + t)[0] == c;
    }
  }

  /** Escaping loses nothing: decoding an escaped string gives the original back. */
  lemma {:induction false} DecodeHtmlSpecialChars(s: string)
    ensures Decode(HtmlSpecialChars(s)) == s
  {
    if |s| > 0 {
      var t := HtmlSpecialChars(s[1..]);
      assert HtmlSpecialChars(s) == EscapeChar(s[0]) + t;
      DecodeEscapeChar(s[0], t);
      DecodeHtmlSpecialChars(s[1..]);
      assert [s[0]] + s[1..] == s;
    }
  }

  /** Escaping works character by character, so it distributes over concatenation. */
  lemma {:induction false} HtmlSpecialCharsAppend(a: string, b: string)
    ensures HtmlSpecialChars(a + b) == HtmlSpecialChars(a) + HtmlSpecialChars(b)
  {
    if |a| == 0 {
      assert a + b == b;
    } else {
      assert (a + b)[0] == a[0];
      assert (a + b)[1..] == a[1..] + b;
      HtmlSpecialCharsAppend(a[1..], b);
      assert HtmlSpecialChars(a + b)
          == EscapeChar(a[0]) + (HtmlSpecialChars(a[1..]) + HtmlSpecialChars(b));
    }
  }

  /** An entity starts with `&` and ends with `;`, so its ends are strippable exactly when the character is. */
  lemma EscapeCharEnds(c: char)
    ensures IsTrimChar(EscapeChar(c)[0]) <==> IsTrimChar(c)
    ensures IsTrimChar(EscapeChar(c)[|EscapeChar(c)| - 1]) <==> IsTrimChar(c)
  {
  }

  /** Escaping keeps a string free of strippable characters at its ends. */
  lemma HtmlSpecialCharsKeepsTrimmed(s: string)
    requires IsTrimmed(s)
    ensures IsTrimmed(HtmlSpecialChars(s))
  {
    if |s| > 0 {
      var n := |s| - 1;
      var first := EscapeChar(s[0]);
      var last := EscapeChar(s[n]);
      EscapeCharEnds(s[0]);
      EscapeCharEnds(s[n]);
      assert s == s[..n] + [s[n]];
      HtmlSpecialCharsAppend(s[..n], [s[n]]);
      assert HtmlSpecialChars([s[n]]) == last;
      var e := HtmlSpecialChars(s);
      assert e == first + HtmlSpecialChars(s[1..]);
      assert e == HtmlSpecialChars(s[..n]) + last;
    }
  }

  /** The only string that escapes to `"0"` is `"0"` itself. */
  lemma HtmlSpecialCharsZero(s: string)
    ensures HtmlSpecialChars(s) == "0" <==> s == "0"
  {
  }

  /** Text holding none of the five characters `htmlspecialchars()` replaces. */
  predicate IsPlainText(s: string) {
    forall i :: 0 <= i < |s| ==> !IsMarkupChar(s[i]) && s[i] != '&'
  }

  /** Text with none of the five special characters passes through escaping unchanged. */
  lemma {:induction false} HtmlSpecialCharsPlainText(s: string)
    requires IsPlainText(s)
    ensures HtmlSpecialChars(s) == s
  {
    if |s| > 0 {
      HtmlSpecialCharsPlainText(s[1..]);
      assert [s[0]] + s[1..] == s;
    }
  }
}
