/** String helpers shared by the frontend and the backend: whitespace
    stripping (`str.strip()` and `String.prototype.trim()`, each with its own
    whitespace set), `", ".join(...)`
    and decimal rendering of integers (`str(n)`, `String(n)`, `f"{n}"`). */
module Text {

  /** Which whitespace a stripping function removes: JavaScript's
      `String.prototype.trim` (the ECMAScript WhiteSpace and LineTerminator
      characters) or Python's `str.strip()` without arguments (the
      characters for which `str.isspace()` holds). */
  datatype Whitespace = JsTrim | PyStrip

  /** The two sets share the ASCII controls U+0009 to U+000D, the space, the
      no-break space, the other Unicode space separators and the line and
      paragraph separators. Only Python counts U+001C to U+001F and U+0085;
      only JavaScript counts the byte order mark U+FEFF. */
  predicate IsSpace(w: Whitespace, c: char) {
    var n := c as int;
    || (9 <= n <= 13) || n == 0x20 || n == 0xA0 || n == 0x1680
    || (0x2000 <= n <= 0x200A) || n == 0x2028 || n == 0x2029
    || n == 0x202F || n == 0x205F || n == 0x3000
    || (w == PyStrip && ((0x1C <= n <= 0x1F) || n == 0x85))
    || (w == JsTrim && n == 0xFEFF)
  }

  /** Every character is whitespace (the empty string included). */
  predicate IsBlank(w: Whitespace, s: string) {
    forall i :: 0 <= i < |s| ==> IsSpace(w, s[i])
  }

  /** The characters of `s` from `lo` up to `hi` are all whitespace. */
  predicate BlankBetween(w: Whitespace, s: string, lo: nat, hi: nat)
    requires lo <= hi <= |s|
  {
    forall k :: lo <= k < hi ==> IsSpace(w, s[k])
  }

  /** Index of the first non-whitespace character at or after `i`, or `|s|`. */
  function SkipSpaces(w: Whitespace, s: string, i: nat): (j: nat)
    requires i <= |s|
    ensures i <= j <= |s| && BlankBetween(w, s, i, j)
    ensures j < |s| ==> !IsSpace(w, s[j])
    decreases |s| - i
  {
    if i == |s| || !IsSpace(w, s[i]) then i else SkipSpaces(w, s, i + 1)
  }

  /** Index just past the last non-whitespace character before `j` and not
      before `lo`, or `lo`. */
  function SkipSpacesBack(w: Whitespace, s: string, lo: nat, j: nat): (e: nat)
    requires lo <= j <= |s|
    ensures lo <= e <= j && BlankBetween(w, s, e, j)
    ensures lo < e ==> !IsSpace(w, s[e - 1])
    decreases j
  {
    if j == lo || !IsSpace(w, s[j - 1]) then j else SkipSpacesBack(w, s, lo, j - 1)
  }

  /** Removes leading and trailing whitespace. The result is a contiguous
      piece of the input, with whitespace only around it, and it neither
      starts nor ends with whitespace. */
  function Strip(w: Whitespace, s: string): (r: string)
    ensures exists lo, hi :: 0 <= lo <= hi <= |s| && r == s[lo..hi] && BlankBetween(w, s, 0, lo) && BlankBetween(w, s, hi, |s|)
    ensures r == [] || (!IsSpace(w, r[0]) && !IsSpace(w, r[|r| - 1]))
  {
    var lo := SkipSpaces(w, s, 0);
    var hi := SkipSpacesBack(w, s, lo, |s|);
    assert lo < hi ==> s[lo..hi][0] == s[lo] && s[lo..hi][hi - lo - 1] == s[hi - 1];
    s[lo..hi]
  }

  /** Stripping yields the empty string exactly when the input is blank. */
  lemma StripEmptyIffBlank(w: Whitespace, s: string)
    ensures Strip(w, s) == "" <==> IsBlank(w, s)
  {
    var lo := SkipSpaces(w, s, 0);
    var hi := SkipSpacesBack(w, s, lo, |s|);
    assert Strip(w, s) == s[lo..hi];
    if lo == hi {
      assert lo == |s|;
    } else {
      assert !IsSpace(w, s[lo]);
    }
  }

  /** Stripping a stripped string changes nothing. */
  lemma StripIdempotent(w: Whitespace, s: string)
    ensures Strip(w, Strip(w, s)) == Strip(w, s)
  {
    var r := Strip(w, s);
    assert SkipSpaces(w, r, 0) == 0;
    assert SkipSpacesBack(w, r, 0, |r|) == |r|;
    assert r[0..|r|] == r;
  }

  /** Python's whitespace that JavaScript's `trim` keeps. */
  predicate PythonOnlySpace(c: char) {
    IsSpace(PyStrip, c) && !IsSpace(JsTrim, c)
  }

  /** A string without such characters that Python finds blank is blank
      for JavaScript as well. */
  lemma BlankAcrossLanguages(s: string)
    requires forall i :: 0 <= i < |s| ==> !PythonOnlySpace(s[i])
    ensures IsBlank(PyStrip, s) ==> IsBlank(JsTrim, s)
  {
  }

  /** The two sets really differ: U+001C is blank for Python only, and U+FEFF
      for JavaScript only. */
  lemma WhitespaceSetsDiffer()
    ensures Strip(PyStrip, "\U{1C}") == "" && Strip(JsTrim, "\U{1C}") == "\U{1C}"
    ensures Strip(JsTrim, "\U{FEFF}") == "" && Strip(PyStrip, "\U{FEFF}") == "\U{FEFF}"
  {
    StripEmptyIffBlank(PyStrip, "\U{1C}");
    StripEmptyIffBlank(JsTrim, "\U{FEFF}");
    assert SkipSpaces(JsTrim, "\U{1C}", 0) == 0;
    assert SkipSpacesBack(JsTrim, "\U{1C}", 0, 1) == 1;
    assert SkipSpaces(PyStrip, "\U{FEFF}", 0) == 0;
    assert SkipSpacesBack(PyStrip, "\U{FEFF}", 0, 1) == 1;
  }

  /** `sep.join(xs)`: the pieces in order, `sep` between neighbours. */
  function Join(xs: seq<string>, sep: string): string
  {
    if |xs| == 0 then ""
    else if |xs| == 1 then xs[0]
    else xs[0] + sep + Join(xs[1..], sep)
  }

  /** Joining one more piece appends the separator and the piece. */
  lemma {:induction false} JoinSnoc(xs: seq<string>, x: string, sep: string)
    requires |xs| > 0
    ensures Join(xs + [x], sep) == Join(xs, sep) + sep + x
  {
    if |xs| > 1 {
      assert (xs + [x])[1..] == xs[1..] + [x];
      JoinSnoc(xs[1..], x, sep);
    }
  }

  predicate IsDigit(c: char) {
    '0' <= c <= '9'
  }

  function DigitChar(d: nat): (c: char)
    requires d < 10
    ensures IsDigit(c)
  {
    "0123456789"[d]
  }

  function DigitValue(c: char): (d: nat)
    requires IsDigit(c)
    ensures d < 10
  {
    (c as int - '0' as int) as nat
  }

  /** Decimal digits of a natural number, no leading zero. */
  function NatToString(n: nat): (r: string)
    ensures |r| > 0
    ensures forall i :: 0 <= i < |r| ==> IsDigit(r[i])
    ensures |r| > 1 ==> r[0] != '0'
  {
    if n < 10 then [DigitChar(n)]
    else NatToString(n / 10) + [DigitChar(n % 10)]
  }

  /** Value of a string of decimal digits. */
  function ParseDigits(s: string): nat
    requires forall i :: 0 <= i < |s| ==> IsDigit(s[i])
  {
    if |s| == 0 then 0
    else 10 * ParseDigits(s[..|s| - 1]) + DigitValue(s[|s| - 1])
  }

  /** Rendering a natural number in decimal and reading it back gives the number. */
  lemma {:induction false} NatToStringRoundTrip(n: nat)
    ensures ParseDigits(NatToString(n)) == n
  {
    var r := NatToString(n);
    if n < 10 {
      assert r[..0] == "";
    } else {
      NatToStringRoundTrip(n / 10);
      assert r[..|r| - 1] == NatToString(n / 10);
    }
  }

  /** `str(n)` / `String(n)` of an integer: a minus sign before the digits of a negative number. */
  function IntToString(n: int): (r: string)
    ensures |r| > 0 && (r[0] == '-' || IsDigit(r[0]))
  {
    if n < 0 then "-" + NatToString(-n) else NatToString(n)
  }

  /** 10 to the power `k`. */
  function Pow10(k: nat): (p: nat)
    ensures p >= 1
  {
    if k == 0 then 1 else 10 * Pow10(k - 1)
  }

  predicate AllDigits(s: string) {
    forall i :: 0 <= i < |s| ==> IsDigit(s[i])
  }

  lemma Distribute(x: int, p: int, y: int, d: int)
    ensures 10 * (x * p + y) + d == x * (10 * p) + (10 * y + d)
  {
  }

  /** Reading digits appended to digits shifts the first part left. */
  lemma {:induction false} ParseDigitsAppend(a: string, b: string)
    requires AllDigits(a) && AllDigits(b)
    ensures AllDigits(a + b)
    ensures ParseDigits(a + b) == ParseDigits(a) * Pow10(|b|) + ParseDigits(b)
  {
    if |b| == 0 {
      assert a + b == a;
    } else {
      var n := |b| - 1;
      var b' := b[..n];
      assert AllDigits(b');
      ParseDigitsAppend(a, b');
      var ab := a + b;
      assert ab[..|ab| - 1] == a + b';
      assert ab[|ab| - 1] == b[n];
      assert ParseDigits(ab) == 10 * ParseDigits(a + b') + DigitValue(b[n]);
      assert b[..n] == b' && ParseDigits(b) == 10 * ParseDigits(b') + DigitValue(b[n]);
      Distribute(ParseDigits(a), Pow10(n), ParseDigits(b'), DigitValue(b[n]));
    }
  }

  /** A string of zeros reads as 0. */
  lemma {:induction false} ParseZeros(k: nat)
    ensures ParseDigits(seq(k, _ => '0')) == 0
  {
    if k > 0 {
      assert seq(k, _ => '0')[..k - 1] == seq(k - 1, _ => '0');
      ParseZeros(k - 1);
    }
  }

  /** A number below `10^w` has at most `w` digits. */
  lemma {:induction false} NatToStringLength(n: nat, w: nat)
    requires 1 <= w && n < Pow10(w)
    ensures |NatToString(n)| <= w
  {
    if n >= 10 {
      NatToStringLength(n / 10, w - 1);
    }
  }

  /** `str(n).rjust(width, "0")` for a natural number, as `%0<width>d` does. */
  function ZeroPad(n: nat, width: nat): (r: string)
    ensures |r| >= width
    ensures |r| >= |NatToString(n)| && r[|r| - |NatToString(n)|..] == NatToString(n)
    ensures forall i :: 0 <= i < |r| - |NatToString(n)| ==> r[i] == '0'
  {
    var digits := NatToString(n);
    if |digits| >= width then digits
    else seq(width - |digits|, _ => '0') + digits
  }

  /** Zero padding keeps the value: reading the padded string gives `n` back. */
  lemma ZeroPadRoundTrip(n: nat, width: nat)
    ensures AllDigits(ZeroPad(n, width))
    ensures ParseDigits(ZeroPad(n, width)) == n
  {
    var digits := NatToString(n);
    NatToStringRoundTrip(n);
    assert AllDigits(digits);
    if |digits| < width {
      var zeros := seq(width - |digits|, _ => '0');
      assert AllDigits(zeros);
      assert ZeroPad(n, width) == zeros + digits;
      ParseDigitsAppend(zeros, digits);
      ParseZeros(width - |digits|);
    }
  }

  /** A number below `10^width` is padded to exactly `width` characters. */
  lemma ZeroPadLength(n: nat, width: nat)
    requires 1 <= width && n < Pow10(width)
    ensures |ZeroPad(n, width)| == width
  {
    NatToStringLength(n, width);
  }

  /** Different integers are rendered differently. */
  lemma IntToStringInjective(a: int, b: int)
    requires IntToString(a) == IntToString(b)
    ensures a == b
  {
    SignFirst(a);
    SignFirst(b);
    if a < 0 {
      NegativeDigits(a);
      NegativeDigits(b);
      NatToStringInjective(-a, -b);
    } else {
      NatToStringInjective(a, b);
    }
  }

  lemma NatToStringInjective(a: nat, b: nat)
    requires NatToString(a) == NatToString(b)
    ensures a == b
  {
    NatToStringRoundTrip(a);
    NatToStringRoundTrip(b);
  }

  /** The rendering starts with '-' exactly for a negative number. */
  lemma SignFirst(n: int)
    ensures IntToString(n)[0] == '-' <==> n < 0
  {
    if n >= 0 {
      assert IsDigit(NatToString(n)[0]);
    }
  }

  /** After its sign, a negative number is rendered as its magnitude. */
  lemma NegativeDigits(a: int)
    requires a < 0
    ensures IntToString(a)[1..] == NatToString(-a)
  {
    var d := NatToString(-a);
    assert IntToString(a) == "-" + d;
  }
}
