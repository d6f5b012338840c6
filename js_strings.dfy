/**
 * The two pieces of JavaScript string behaviour the bookmarker renderer
 * relies on: `String.prototype.trim` (used on the error notice) and the
 * conversion of a non-negative integer to its decimal text (what a template
 * literal does with `${response.status}`).
 */
module JsStrings {

  /** WhiteSpace and LineTerminator code points, the set `trim` strips. */
  predicate IsWhitespace(c: char) {
    c == '\t' || c == '\n' || c == '\U{000B}' || c == '\U{000C}' || c == '\r' || c == ' '
    || c == '\U{00A0}' || c == '\U{1680}' || ('\U{2000}' <= c <= '\U{200A}')
    || c == '\U{2028}' || c == '\U{2029}' || c == '\U{202F}' || c == '\U{205F}'
    || c == '\U{3000}' || c == '\U{FEFF}'
  }

  predicate AllWhitespace(s: string) {
    forall i :: 0 <= i < |s| ==> IsWhitespace(s[i])
  }

  /** Removes leading whitespace: the result is the suffix of `s` that starts at its first non-whitespace character. */
  function TrimStart(s: string): (r: string)
    ensures |r| <= |s| && r == s[|s| - |r|..]
    ensures AllWhitespace(s[..|s| - |r|])
    ensures r == [] || !IsWhitespace(r[0])
  {
    if s != [] && IsWhitespace(s[0]) then TrimStart(s[1..]) else s
  }

  /** Removes trailing whitespace: the result is the prefix of `s` that ends at its last non-whitespace character. */
  function TrimEnd(s: string): (r: string)
    ensures |r| <= |s| && r == s[..|r|]
    ensures AllWhitespace(s[|r|..])
    ensures r == [] || !IsWhitespace(r[|r| - 1])
  {
    if s != [] && IsWhitespace(s[|s| - 1]) then TrimEnd(s[..|s| - 1]) else s
  }

  /** `String.prototype.trim`. */
  function Trim(s: string): (r: string)
    ensures |r| <= |s|
    ensures r == [] || (!IsWhitespace(r[0]) && !IsWhitespace(r[|r| - 1]))
    ensures r == [] <==> AllWhitespace(s)
  {
    var t := TrimStart(s);
    var r := TrimEnd(t);
    assert r != [] ==> r[0] == t[0];
    assert t != [] ==> !IsWhitespace(s[|s| - |t|]);
    assert t == [] ==> s[..|s|] == s;
    r
  }

  /** A string that neither starts nor ends with whitespace is its own trim. */
  lemma TrimOfTrimmed(s: string)
    requires s == [] || (!IsWhitespace(s[0]) && !IsWhitespace(s[|s| - 1]))
    ensures Trim(s) == s
  {
  }

  /** Trimming is idempotent. */
  lemma TrimIdempotent(s: string)
    ensures Trim(Trim(s)) == Trim(s)
  {
    var t := Trim(s);
    var u := TrimStart(s);
    if t != [] {
      assert t == u[..|t|];
      assert t[0] == u[0];
    }
    TrimOfTrimmed(t);
  }

  /** Leading whitespace followed by a non-whitespace character is exactly what TrimStart removes. */
  lemma {:induction false} TrimStartAfterWhitespace(w: string, b: string)
    requires AllWhitespace(w)
    requires b == [] || !IsWhitespace(b[0])
    ensures TrimStart(w + b) == b
  {
    if w == [] {
      assert w + b == b;
    } else {
      assert (w + b)[0] == w[0];
      assert (w + b)[1..] == w[1..] + b;
      TrimStartAfterWhitespace(w[1..], b);
    }
  }

  /** Trailing whitespace is dropped without touching what precedes it. */
  lemma {:induction false} TrimEndBeforeWhitespace(a: string, w: string)
    requires AllWhitespace(w)
    ensures TrimEnd(a + w) == TrimEnd(a)
  {
    if w == [] {
      assert a + w == a;
    } else {
      var n := |a + w|;
      assert (a + w)[n - 1] == w[|w| - 1];
      assert (a + w)[..n - 1] == a + w[..|w| - 1];
      TrimEndBeforeWhitespace(a, w[..|w| - 1]);
    }
  }

  /** When `a` ends with a non-whitespace character, trimming `a + b` only trims `b`. */
  lemma {:induction false} TrimEndAfterSolid(a: string, b: string)
    requires |a| > 0 && !IsWhitespace(a[|a| - 1])
    ensures TrimEnd(a + b) == a + TrimEnd(b)
  {
    if b == [] {
      assert a + b == a;
    } else if IsWhitespace(b[|b| - 1]) {
      var n := |a + b|;
      assert (a + b)[n - 1] == b[|b| - 1];
      assert (a + b)[..n - 1] == a + b[..|b| - 1];
      TrimEndAfterSolid(a, b[..|b| - 1]);
    } else {
      assert (a + b)[|a + b| - 1] == b[|b| - 1];
    }
  }

  /** When `b` holds some non-whitespace character, trimming `a + b` only trims `b`. */
  lemma {:induction false} TrimEndOfSolidTail(a: string, b: string, j: nat)
    requires j < |b| && !IsWhitespace(b[j])
    ensures TrimEnd(a + b) == a + TrimEnd(b)
  {
    if IsWhitespace(b[|b| - 1]) {
      var n := |a + b|;
      assert (a + b)[n - 1] == b[|b| - 1];
      assert (a + b)[..n - 1] == a + b[..|b| - 1];
      assert j < |b| - 1;
      TrimEndOfSolidTail(a, b[..|b| - 1], j);
    } else {
      assert (a + b)[|a + b| - 1] == b[|b| - 1];
    }
  }

  // ---- decimal text of a number ----

  predicate IsDigit(c: char) {
    '0' <= c <= '9'
  }

  function DigitChar(d: nat): (c: char)
    requires d < 10
    ensures IsDigit(c) && c as int - '0' as int == d
  {
    (d + '0' as int) as char
  }

  /** The decimal text of `n`, as a template literal renders a response status code (an unsigned 16-bit
      integer, so far below the point where JavaScript switches to exponent notation). */
  function NatToString(n: nat): (s: string)
    ensures |s| > 0
    ensures forall i :: 0 <= i < |s| ==> IsDigit(s[i])
    ensures n > 0 ==> s[0] != '0'
  {
    if n < 10 then [DigitChar(n)] else NatToString(n / 10) + [DigitChar(n % 10)]
  }

  /** The number a string of decimal digits denotes (the reading direction of NatToString). */
  function DecimalValue(s: string): nat
    requires forall i :: 0 <= i < |s| ==> IsDigit(s[i])
  {
    if s == [] then 0
    else
      assert IsDigit(s[|s| - 1]);
      DecimalValue(s[..|s| - 1]) * 10 + (s[|s| - 1] as int - '0' as int)
  }

  /** Reading back the decimal text of `n` gives `n`. */
  lemma {:induction false} DecimalRoundTrip(n: nat)
    ensures DecimalValue(NatToString(n)) == n
  {
    if n >= 10 {
      var s := NatToString(n);
      assert s[..|s| - 1] == NatToString(n / 10);
      DecimalRoundTrip(n / 10);
    }
  }

  /** Different numbers have different decimal texts. */
  lemma NatToStringInjective(m: nat, n: nat)
    requires NatToString(m) == NatToString(n)
    ensures m == n
  {
    DecimalRoundTrip(m);
    DecimalRoundTrip(n);
  }
}
