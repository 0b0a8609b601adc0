/** The JavaScript string built-ins the memo manager relies on, over Dafny strings. */
module JsString {

  /** `pat` occurs at the start of `s`. */
  predicate StartsWith(s: string, pat: string) {
    |pat| <= |s| && s[..|pat|] == pat
  }

  /** `s.replace(/pat/g, rep)` for a literal, non-empty pattern and a replacement without `$`
      patterns: scan left to right and replace every non-overlapping occurrence of `pat` by
      `rep`, inserted literally. */
  function ReplaceAll(s: string, pat: string, rep: string): string
    requires |pat| > 0
    decreases |s|
  {
    if s == [] then []
    else if StartsWith(s, pat) then rep + ReplaceAll(s[|pat|..], pat, rep)
    else [s[0]] + ReplaceAll(s[1..], pat, rep)
  }

  /** No occurrence of `pat` starts inside `a` and runs on into `b`. */
  ghost predicate NoStraddle(a: string, b: string, pat: string) {
    forall i :: 0 <= i < |a| && |a| - i < |pat| ==> !StartsWith(a[i..] + b, pat)
  }

  /** Dropping a prefix of `a` keeps the seam free of straddling occurrences. */
  lemma NoStraddleDrop(a: string, b: string, pat: string, n: nat)
    requires NoStraddle(a, b, pat) && n <= |a|
    ensures NoStraddle(a[n..], b, pat)
  {
    var a' := a[n..];
    forall i | 0 <= i < |a'| && |a'| - i < |pat|
      ensures !StartsWith(a'[i..] + b, pat)
    {
      assert a'[i..] == a[i + n..];
    }
  }

  /** The first step of the scan over `a + b` happens inside `a` and is the same step the
      scan over `a` alone takes: it consumes `n` characters and emits `head`. */
  lemma ReplaceAllStep(a: string, b: string, pat: string, rep: string) returns (n: nat, head: string)
    requires |pat| > 0 && a != [] && NoStraddle(a, b, pat)
    ensures 1 <= n <= |a|
    ensures ReplaceAll(a + b, pat, rep) == head + ReplaceAll(a[n..] + b, pat, rep)
    ensures ReplaceAll(a, pat, rep) == head + ReplaceAll(a[n..], pat, rep)
  {
    if StartsWith(a + b, pat) {
      assert a[0..] + b == a + b;
      assert (a + b)[..|pat|] == a[..|pat|];
      n, head := |pat|, rep;
    } else {
      if |pat| <= |a| {
        assert (a + b)[..|pat|] == a[..|pat|];
      }
      n, head := 1, [a[0]];
    }
    assert (a + b)[n..] == a[n..] + b;
  }

  /** Replacing in a concatenation replaces in each part, as long as no occurrence of the
      pattern spans the seam. */
  lemma {:induction false} ReplaceAllConcat(a: string, b: string, pat: string, rep: string)
    requires |pat| > 0 && NoStraddle(a, b, pat)
    ensures ReplaceAll(a + b, pat, rep) == ReplaceAll(a, pat, rep) + ReplaceAll(b, pat, rep)
    decreases |a|
  {
    if a == [] {
      assert a + b == b;
    } else {
      var n, head := ReplaceAllStep(a, b, pat, rep);
      NoStraddleDrop(a, b, pat, n);
      ReplaceAllConcat(a[n..], b, pat, rep);
    }
  }

  /** A string in which the pattern's first character never occurs is left as it is. */
  lemma {:induction false} ReplaceAllAbsent(s: string, pat: string, rep: string)
    requires |pat| > 0
    requires forall k :: 0 <= k < |s| ==> s[k] != pat[0]
    ensures ReplaceAll(s, pat, rep) == s
    decreases |s|
  {
    if s != [] {
      ReplaceAllAbsent(s[1..], pat, rep);
    }
  }

  /** A one-character string that is the pattern becomes the replacement. */
  lemma ReplaceAllSelf(c: char, rep: string)
    ensures ReplaceAll([c], [c], rep) == rep
  {
    assert StartsWith([c], [c]) && [c][1..] == [];
  }

  /** The characters `String.prototype.trim` removes: ECMAScript WhiteSpace and
      LineTerminator code points. */
  predicate IsWhitespace(c: char) {
    c == '\t' || c == '\n' || c == '\U{B}' || c == '\U{C}' || c == '\r' || c == ' '
    || c == '\U{A0}' || c == '\U{1680}' || ('\U{2000}' <= c <= '\U{200A}')
    || c == '\U{2028}' || c == '\U{2029}' || c == '\U{202F}' || c == '\U{205F}'
    || c == '\U{3000}' || c == '\U{FEFF}'
  }

  /** `s` with its leading whitespace removed: a suffix of `s` that does not start with
      whitespace, and everything cut off is whitespace. */
  function TrimStart(s: string): (r: string)
    ensures |r| <= |s| && r == s[|s| - |r|..]
    ensures r == [] || !IsWhitespace(r[0])
    ensures forall k :: 0 <= k < |s| - |r| ==> IsWhitespace(s[k])
  {
    if s != [] && IsWhitespace(s[0]) then TrimStart(s[1..]) else s
  }

  /** `s` with its trailing whitespace removed: a prefix of `s` that does not end with
      whitespace, and everything cut off is whitespace. */
  function TrimEnd(s: string): (r: string)
    ensures |r| <= |s| && r == s[..|r|]
    ensures r == [] || !IsWhitespace(r[|r| - 1])
    ensures forall k :: |r| <= k < |s| ==> IsWhitespace(s[k])
  {
    if s != [] && IsWhitespace(s[|s| - 1]) then TrimEnd(s[..|s| - 1]) else s
  }

  /** `s.trim()`. */
  function Trim(s: string): string {
    TrimEnd(TrimStart(s))
  }

  /** How many whitespace characters `trim` cuts off the front of `s`. */
  function Lead(s: string): nat {
    |s| - |TrimStart(s)|
  }

  /** A trimmed string is a contiguous piece of the original with no whitespace at either
      end. */
  lemma TrimIsInfix(s: string)
    ensures Lead(s) + |Trim(s)| <= |s|
    ensures Trim(s) == s[Lead(s)..Lead(s) + |Trim(s)|]
    ensures Trim(s) == [] || (!IsWhitespace(Trim(s)[0]) && !IsWhitespace(Trim(s)[|Trim(s)| - 1]))
  {
    TrimSlice(s);
    TrimEnds(s);
  }

  lemma TrimSlice(s: string)
    ensures Lead(s) + |Trim(s)| <= |s|
    ensures Trim(s) == s[Lead(s)..Lead(s) + |Trim(s)|]
  {
    PrefixOfSuffix(s, TrimStart(s), Trim(s));
  }

  /** A prefix of a suffix is an infix. */
  lemma PrefixOfSuffix(s: string, t: string, r: string)
    requires |t| <= |s| && t == s[|s| - |t|..]
    requires |r| <= |t| && r == t[..|r|]
    ensures r == s[|s| - |t|..|s| - |t| + |r|]
  {
  }

  lemma TrimEnds(s: string)
    ensures Trim(s) == [] || (!IsWhitespace(Trim(s)[0]) && !IsWhitespace(Trim(s)[|Trim(s)| - 1]))
  {
    var t := TrimStart(s);
    var r := TrimEnd(t);
    assert Trim(s) == r;
    if r != [] {
      assert r[0] == t[0] && !IsWhitespace(t[0]);
    }
  }

  /** Only whitespace is cut off, on either side. */
  lemma TrimCutsWhitespace(s: string)
    ensures forall k :: 0 <= k < Lead(s) ==> IsWhitespace(s[k])
    ensures forall k :: Lead(s) + |Trim(s)| <= k < |s| ==> IsWhitespace(s[k])
  {
    TrimCutsTail(s);
  }

  lemma TrimCutsTail(s: string)
    ensures forall k :: Lead(s) + |Trim(s)| <= k < |s| ==> IsWhitespace(s[k])
  {
    var t := TrimStart(s);
    var r := TrimEnd(t);
    var lead := |s| - |t|;
    forall k | lead + |r| <= k < |s| ensures IsWhitespace(s[k]) {
      SuffixIndex(s, t, k - lead);
    }
  }

  /** Indexing into a suffix is indexing into the whole string further on. */
  lemma SuffixIndex(s: string, t: string, j: nat)
    requires |t| <= |s| && t == s[|s| - |t|..] && j < |t|
    ensures t[j] == s[|s| - |t| + j]
  {
  }

  /** A string trims to the empty string exactly when every character of it is whitespace:
      this is the falsy check `!title` after `trim()`. */
  lemma {:induction false} TrimEmptyIff(s: string)
    ensures Trim(s) == [] <==> forall k :: 0 <= k < |s| ==> IsWhitespace(s[k])
  {
    TrimIsInfix(s);
    TrimCutsWhitespace(s);
    var t := TrimStart(s);
    if t != [] {
      assert t[0] == s[|s| - |t|];
      assert !IsWhitespace(s[|s| - |t|]);
    }
  }

  /** A string with no whitespace at either end is its own trim. */
  lemma TrimKeeps(s: string)
    requires s == [] || (!IsWhitespace(s[0]) && !IsWhitespace(s[|s| - 1]))
    ensures Trim(s) == s
  {
    assert TrimStart(s) == s;
  }

  /** Trimming twice is trimming once. */
  lemma TrimIdempotent(s: string)
    ensures Trim(Trim(s)) == Trim(s)
  {
    var r := Trim(s);
    TrimIsInfix(s);
    assert TrimStart(r) == r;
    assert TrimEnd(r) == r;
  }

  predicate IsDigit(c: char) {
    '0' <= c <= '9'
  }

  predicate AllDigits(s: string) {
    forall k :: 0 <= k < |s| ==> IsDigit(s[k])
  }

  function DigitChar(d: nat): (c: char)
    requires d < 10
    ensures IsDigit(c)
  {
    (48 + d) as char
  }

  function DigitValue(c: char): (d: nat)
    requires IsDigit(c)
    ensures d < 10 && DigitChar(d) == c
  {
    c as int - 48
  }

  /** `String(n)` for a non-negative integer below 10^21 (from there on JavaScript switches to
      exponent form): its decimal digits, without leading zeros. */
  function DecimalString(n: nat): (r: string)
    ensures |r| >= 1 && AllDigits(r)
    ensures r[0] == '0' <==> n == 0
    ensures n < 10 <==> |r| == 1
    ensures 10 <= n < 100 <==> |r| == 2
    ensures 1000 <= n < 10000 <==> |r| == 4
  {
    if n < 10 then [DigitChar(n)] else DecimalString(n / 10) + [DigitChar(n % 10)]
  }

  /** The value of a string of decimal digits (the empty string reads as 0). */
  function ParseDecimal(s: string): nat
    requires AllDigits(s)
  {
    if s == [] then 0 else ParseDecimal(s[..|s| - 1]) * 10 + DigitValue(s[|s| - 1])
  }

  /** `String(n)` reads back as `n`. */
  lemma {:induction false} ParseDecimalString(n: nat)
    ensures ParseDecimal(DecimalString(n)) == n
  {
    var s := DecimalString(n);
    if n < 10 {
      assert s[..|s| - 1] == [];
    } else {
      assert s[..|s| - 1] == DecimalString(n / 10);
      ParseDecimalString(n / 10);
    }
  }

  /** `s.padStart(width, fill)`: `s` itself when already `width` long, else `s` preceded by
      enough copies of `fill` to reach `width`. */
  function PadStart(s: string, width: nat, fill: char): (r: string)
    ensures |r| == if |s| < width then width else |s|
    ensures r[|r| - |s|..] == s
    ensures forall k :: 0 <= k < |r| - |s| ==> r[k] == fill
  {
    if |s| < width then seq(width - |s|, _ => fill) + s else s
  }
}
