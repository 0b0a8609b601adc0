/** The pure helpers of app.js: HTML escaping and the `YYYY-MM-DD HH:MM` time stamp. */
module Formatter {
  import opened Wrappers
  import opened JsString

  // ---------------------------------------------------------------------------
  // escapeHtml

  /** `escapeHtml`: five global replaces, `&` first. */
  function EscapeHtml(unsafe: string): string {
    ReplaceAll(ReplaceAll(ReplaceAll(ReplaceAll(ReplaceAll(
      unsafe, "&", "&amp;"), "<", "&lt;"), ">", "&gt;"), "\"", "&quot;"), "'", "&#039;")
  }

  /** The entity (or the character itself) that one character is escaped to. */
  function EscapeChar(c: char): string {
    if c == '&' then "&amp;"
    else if c == '<' then "&lt;"
    else if c == '>' then "&gt;"
    else if c == '"' then "&quot;"
    else if c == '\'' then "&#039;"
    else [c]
  }

  /** Escaping as a per-character map: each character replaced by its `EscapeChar`. */
  function EscapeEach(s: string): string {
    if s == [] then [] else EscapeChar(s[0]) + EscapeEach(s[1..])
  }

  /** The characters that may not appear literally in escaped text. */
  predicate IsMarkup(c: char) {
    c == '<' || c == '>' || c == '"' || c == '\''
  }

  /** The inverse decoder: the five entities replaced back, `&amp;` last. */
  function UnescapeHtml(s: string): string {
    ReplaceAll(ReplaceAll(ReplaceAll(ReplaceAll(ReplaceAll(
      s, "&#039;", "'"), "&quot;", "\""), "&gt;", ">"), "&lt;", "<"), "&amp;", "&")
  }

  /** The replace chain distributes over concatenation: every pattern is one character. */
  lemma EscapeHtmlConcat(a: string, b: string)
    ensures EscapeHtml(a + b) == EscapeHtml(a) + EscapeHtml(b)
  {
    var a1, b1 := ReplaceAll(a, "&", "&amp;"), ReplaceAll(b, "&", "&amp;");
    ReplaceAllConcat(a, b, "&", "&amp;");
    var a2, b2 := ReplaceAll(a1, "<", "&lt;"), ReplaceAll(b1, "<", "&lt;");
    ReplaceAllConcat(a1, b1, "<", "&lt;");
    var a3, b3 := ReplaceAll(a2, ">", "&gt;"), ReplaceAll(b2, ">", "&gt;");
    ReplaceAllConcat(a2, b2, ">", "&gt;");
    var a4, b4 := ReplaceAll(a3, "\"", "&quot;"), ReplaceAll(b3, "\"", "&quot;");
    ReplaceAllConcat(a3, b3, "\"", "&quot;");
    ReplaceAllConcat(a4, b4, "'", "&#039;");
  }

  // The replace chain on each kind of single character.

  lemma EscapeAmp()
    ensures EscapeHtml(['&']) == "&amp;"
  {
    ReplaceAllSelf('&', "&amp;");
    ReplaceAllAbsent("&amp;", "<", "&lt;");
    ReplaceAllAbsent("&amp;", ">", "&gt;");
    ReplaceAllAbsent("&amp;", "\"", "&quot;");
    ReplaceAllAbsent("&amp;", "'", "&#039;");
  }

  lemma EscapeLt()
    ensures EscapeHtml(['<']) == "&lt;"
  {
    ReplaceAllAbsent(['<'], "&", "&amp;");
    ReplaceAllSelf('<', "&lt;");
    ReplaceAllAbsent("&lt;", ">", "&gt;");
    ReplaceAllAbsent("&lt;", "\"", "&quot;");
    ReplaceAllAbsent("&lt;", "'", "&#039;");
  }

  lemma EscapeGt()
    ensures EscapeHtml(['>']) == "&gt;"
  {
    ReplaceAllAbsent(['>'], "&", "&amp;");
    ReplaceAllAbsent(['>'], "<", "&lt;");
    ReplaceAllSelf('>', "&gt;");
    ReplaceAllAbsent("&gt;", "\"", "&quot;");
    ReplaceAllAbsent("&gt;", "'", "&#039;");
  }

  lemma EscapeQuote()
    ensures EscapeHtml(['"']) == "&quot;"
  {
    ReplaceAllAbsent(['"'], "&", "&amp;");
    ReplaceAllAbsent(['"'], "<", "&lt;");
    ReplaceAllAbsent(['"'], ">", "&gt;");
    ReplaceAllSelf('"', "&quot;");
    ReplaceAllAbsent("&quot;", "'", "&#039;");
  }

  lemma EscapeApostrophe()
    ensures EscapeHtml(['\'']) == "&#039;"
  {
    ReplaceAllAbsent(['\''], "&", "&amp;");
    ReplaceAllAbsent(['\''], "<", "&lt;");
    ReplaceAllAbsent(['\''], ">", "&gt;");
    ReplaceAllAbsent(['\''], "\"", "&quot;");
    ReplaceAllSelf('\'', "&#039;");
  }

  lemma EscapePlain(c: char)
    requires c != '&' && !IsMarkup(c)
    ensures EscapeHtml([c]) == [c]
  {
    ReplaceAllAbsent([c], "&", "&amp;");
    ReplaceAllAbsent([c], "<", "&lt;");
    ReplaceAllAbsent([c], ">", "&gt;");
    ReplaceAllAbsent([c], "\"", "&quot;");
    ReplaceAllAbsent([c], "'", "&#039;");
  }

  /** The replace chain on a single character gives that character's entity. */
  lemma EscapeHtmlOne(c: char)
    ensures EscapeHtml([c]) == EscapeChar(c)
  {
    if c == '&' {
      EscapeAmp();
    } else if c == '<' {
      EscapeLt();
    } else if c == '>' {
      EscapeGt();
    } else if c == '"' {
      EscapeQuote();
    } else if c == '\'' {
      EscapeApostrophe();
    } else {
      EscapePlain(c);
    }
  }

  /** Because `&` is replaced first, the replace chain is exactly the per-character map. */
  lemma {:induction false} EscapeHtmlPerChar(s: string)
    ensures EscapeHtml(s) == EscapeEach(s)
  {
    if s != [] {
      assert s == [s[0]] + s[1..];
      EscapeHtmlConcat([s[0]], s[1..]);
      EscapeHtmlOne(s[0]);
      EscapeHtmlPerChar(s[1..]);
    }
  }

  /** An HTML character reference as `escapeHtml` writes one: `&`, then characters other
      than `&` and `;`, then `;`. */
  predicate IsEntity(e: string) {
    && |e| >= 2 && e[0] == '&' && e[|e| - 1] == ';'
    && forall k :: 0 < k < |e| - 1 ==> e[k] != '&' && e[k] != ';'
  }

  /** A piece of escaped text: an entity, or one character that is not `&`. */
  predicate IsToken(t: string) {
    IsEntity(t) || (|t| == 1 && t[0] != '&')
  }

  /** No occurrence of an entity starts inside a token and runs on past it. */
  lemma TokenNoStraddle(tok: string, x: string, pat: string)
    requires IsEntity(pat) && IsToken(tok)
    ensures NoStraddle(tok, x, pat)
  {
    forall i | 0 <= i < |tok| && |tok| - i < |pat|
      ensures !StartsWith(tok[i..] + x, pat)
    {
      if i > 0 || !IsEntity(tok) {
        assert (tok[i..] + x)[0] != pat[0];
      } else {
        assert (tok + x)[|tok| - 1] != pat[|tok| - 1];
        assert tok[i..] == tok;
      }
    }
  }

  /** The decoder's replace on a token alone: the entity sought becomes its character, any
      other token is kept. */
  lemma TokenReplace(tok: string, pat: string, rep: string)
    requires IsEntity(pat) && IsToken(tok)
    ensures ReplaceAll(tok, pat, rep) == if tok == pat then rep else tok
  {
    if tok == pat {
      assert StartsWith(tok, pat) && tok[|pat|..] == [];
    } else {
      if !IsEntity(tok) {
        assert tok[0] != pat[0];
      } else if |pat| < |tok| {
        assert tok[..|pat|][|pat| - 1] != pat[|pat| - 1];
      } else if |pat| == |tok| {
        assert tok[..|pat|] == tok;
      }
      assert !StartsWith(tok, pat);
      ReplaceAllAbsent(tok[1..], pat, rep);
      assert [tok[0]] + tok[1..] == tok;
    }
  }

  /** A token that is not the entity sought passes through one decoding step untouched. */
  lemma Keep(tok: string, x: string, pat: string, rep: string)
    requires IsEntity(pat) && IsToken(tok) && tok != pat
    ensures ReplaceAll(tok + x, pat, rep) == tok + ReplaceAll(x, pat, rep)
  {
    TokenNoStraddle(tok, x, pat);
    ReplaceAllConcat(tok, x, pat, rep);
    TokenReplace(tok, pat, rep);
  }

  /** The entity sought is replaced by its character in one decoding step. */
  lemma Hit(tok: string, x: string, rep: string)
    requires IsEntity(tok)
    ensures ReplaceAll(tok + x, tok, rep) == rep + ReplaceAll(x, tok, rep)
  {
    TokenNoStraddle(tok, x, tok);
    ReplaceAllConcat(tok, x, tok, rep);
    TokenReplace(tok, tok, rep);
  }

  // Decoding one escaped character followed by anything yields that character followed by
  // the decoding of the rest, one lemma per kind of character.

  lemma DecodeApostrophe(x: string)
    ensures UnescapeHtml("&#039;" + x) == "'" + UnescapeHtml(x)
  {
    var x1 := ReplaceAll(x, "&#039;", "'");
    Hit("&#039;", x, "'");
    var x2 := ReplaceAll(x1, "&quot;", "\"");
    Keep("'", x1, "&quot;", "\"");
    var x3 := ReplaceAll(x2, "&gt;", ">");
    Keep("'", x2, "&gt;", ">");
    var x4 := ReplaceAll(x3, "&lt;", "<");
    Keep("'", x3, "&lt;", "<");
    Keep("'", x4, "&amp;", "&");
  }

  lemma DecodeQuote(x: string)
    ensures UnescapeHtml("&quot;" + x) == "\"" + UnescapeHtml(x)
  {
    var x1 := ReplaceAll(x, "&#039;", "'");
    Keep("&quot;", x, "&#039;", "'");
    var x2 := ReplaceAll(x1, "&quot;", "\"");
    Hit("&quot;", x1, "\"");
    var x3 := ReplaceAll(x2, "&gt;", ">");
    Keep("\"", x2, "&gt;", ">");
    var x4 := ReplaceAll(x3, "&lt;", "<");
    Keep("\"", x3, "&lt;", "<");
    Keep("\"", x4, "&amp;", "&");
  }

  lemma DecodeGt(x: string)
    ensures UnescapeHtml("&gt;" + x) == ">" + UnescapeHtml(x)
  {
    var x1 := ReplaceAll(x, "&#039;", "'");
    Keep("&gt;", x, "&#039;", "'");
    var x2 := ReplaceAll(x1, "&quot;", "\"");
    Keep("&gt;", x1, "&quot;", "\"");
    var x3 := ReplaceAll(x2, "&gt;", ">");
    Hit("&gt;", x2, ">");
    var x4 := ReplaceAll(x3, "&lt;", "<");
    Keep(">", x3, "&lt;", "<");
    Keep(">", x4, "&amp;", "&");
  }

  lemma DecodeLt(x: string)
    ensures UnescapeHtml("&lt;" + x) == "<" + UnescapeHtml(x)
  {
    var x1 := ReplaceAll(x, "&#039;", "'");
    Keep("&lt;", x, "&#039;", "'");
    var x2 := ReplaceAll(x1, "&quot;", "\"");
    Keep("&lt;", x1, "&quot;", "\"");
    var x3 := ReplaceAll(x2, "&gt;", ">");
    Keep("&lt;", x2, "&gt;", ">");
    var x4 := ReplaceAll(x3, "&lt;", "<");
    Hit("&lt;", x3, "<");
    Keep("<", x4, "&amp;", "&");
  }

  lemma DecodeAmp(x: string)
    ensures UnescapeHtml("&amp;" + x) == "&" + UnescapeHtml(x)
  {
    var x1 := ReplaceAll(x, "&#039;", "'");
    Keep("&amp;", x, "&#039;", "'");
    var x2 := ReplaceAll(x1, "&quot;", "\"");
    Keep("&amp;", x1, "&quot;", "\"");
    var x3 := ReplaceAll(x2, "&gt;", ">");
    Keep("&amp;", x2, "&gt;", ">");
    var x4 := ReplaceAll(x3, "&lt;", "<");
    Keep("&amp;", x3, "&lt;", "<");
    Hit("&amp;", x4, "&");
  }

  lemma DecodePlain(c: char, x: string)
    requires c != '&'
    ensures UnescapeHtml([c] + x) == [c] + UnescapeHtml(x)
  {
    var x1 := ReplaceAll(x, "&#039;", "'");
    Keep([c], x, "&#039;", "'");
    var x2 := ReplaceAll(x1, "&quot;", "\"");
    Keep([c], x1, "&quot;", "\"");
    var x3 := ReplaceAll(x2, "&gt;", ">");
    Keep([c], x2, "&gt;", ">");
    var x4 := ReplaceAll(x3, "&lt;", "<");
    Keep([c], x3, "&lt;", "<");
    Keep([c], x4, "&amp;", "&");
  }

  lemma UnescapeEscapedChar(c: char, x: string)
    ensures UnescapeHtml(EscapeChar(c) + x) == [c] + UnescapeHtml(x)
  {
    if c == '\'' {
      DecodeApostrophe(x);
    } else if c == '"' {
      DecodeQuote(x);
    } else if c == '>' {
      DecodeGt(x);
    } else if c == '<' {
      DecodeLt(x);
    } else if c == '&' {
      DecodeAmp(x);
    } else {
      DecodePlain(c, x);
    }
  }

  /** Unescaping `&#039;`, `&quot;`, `&gt;`, `&lt;` and then `&amp;` gives back the original
      string: `escapeHtml` loses nothing. */
  lemma {:induction false} UnescapeEscapeHtml(s: string)
    ensures UnescapeHtml(EscapeHtml(s)) == s
  {
    EscapeHtmlPerChar(s);
    EachRoundTrip(s);
  }

  lemma {:induction false} EachRoundTrip(s: string)
    ensures UnescapeHtml(EscapeEach(s)) == s
  {
    if s == [] {
      assert UnescapeHtml([]) == [];
    } else {
      UnescapeEscapedChar(s[0], EscapeEach(s[1..]));
      EachRoundTrip(s[1..]);
    }
  }

  /** Escaped text contains no literal `<`, `>`, `"` or `'`. */
  lemma {:induction false} EscapeHtmlHasNoMarkup(s: string)
    ensures forall k :: 0 <= k < |EscapeHtml(s)| ==> !IsMarkup(EscapeHtml(s)[k])
  {
    EscapeHtmlPerChar(s);
    EachHasNoMarkup(s);
  }

  lemma {:induction false} EachHasNoMarkup(s: string)
    ensures forall k :: 0 <= k < |EscapeEach(s)| ==> !IsMarkup(EscapeEach(s)[k])
  {
    if s != [] {
      EachHasNoMarkup(s[1..]);
      var head := EscapeChar(s[0]);
      assert forall k :: 0 <= k < |head| ==> !IsMarkup(head[k]);
    }
  }

  /** `escapeHtml` changes a string exactly when the string holds one of `&<>"'`. */
  lemma {:induction false} EscapeHtmlIdentityIff(s: string)
    ensures EscapeHtml(s) == s <==> forall k :: 0 <= k < |s| ==> !IsMarkup(s[k]) && s[k] != '&'
  {
    EscapeHtmlPerChar(s);
    EachLength(s);
    if forall k :: 0 <= k < |s| ==> !IsMarkup(s[k]) && s[k] != '&' {
      EachIdentity(s);
    }
  }

  /** The per-character map never shortens, and lengthens whenever a special character occurs. */
  lemma {:induction false} EachLength(s: string)
    ensures |EscapeEach(s)| >= |s|
    ensures (exists k :: 0 <= k < |s| && (IsMarkup(s[k]) || s[k] == '&')) ==> |EscapeEach(s)| > |s|
  {
    if s != [] {
      EachLength(s[1..]);
      if exists k :: 0 <= k < |s| && (IsMarkup(s[k]) || s[k] == '&') {
        var k :| 0 <= k < |s| && (IsMarkup(s[k]) || s[k] == '&');
        if k > 0 {
          assert s[1..][k - 1] == s[k];
        }
      }
    }
  }

  lemma {:induction false} EachIdentity(s: string)
    requires forall k :: 0 <= k < |s| ==> !IsMarkup(s[k]) && s[k] != '&'
    ensures EscapeEach(s) == s
  {
    if s != [] {
      EachIdentity(s[1..]);
    }
  }

  // ---------------------------------------------------------------------------
  // getFormattedDate

  /** `String(n).padStart(2, "0")`. */
  function Pad2(n: nat): string {
    PadStart(DecimalString(n), 2, '0')
  }

  /** `getFormattedDate` with the clock's fields passed in: `year-MM-DD hh:mm`. */
  function FormattedDate(year: nat, month: nat, day: nat, hours: nat, minutes: nat): string {
    DecimalString(year) + "-" + Pad2(month) + "-" + Pad2(day) + " " + Pad2(hours) + ":" + Pad2(minutes)
  }

  datatype Stamp = Stamp(year: nat, month: nat, day: nat, hour: nat, minute: nat)

  /** The twelve characters after the year: `-MM-DD hh:mm` with digits in the fields. */
  predicate IsStampTail(t: string) {
    && |t| == 12 && t[0] == '-' && t[3] == '-' && t[6] == ' ' && t[9] == ':'
    && AllDigits(t[1..3]) && AllDigits(t[4..6]) && AllDigits(t[7..9]) && AllDigits(t[10..])
  }

  /** Reads a `YYYY-MM-DD HH:MM` stamp back: the last twelve characters hold the separators
      and four two-digit fields, everything before them is the year. */
  function ParseStamp(s: string): Option<Stamp> {
    if |s| < 13 then None
    else
      var year, t := s[..|s| - 12], s[|s| - 12..];
      if AllDigits(year) && IsStampTail(t) then
        Some(Stamp(ParseDecimal(year), ParseDecimal(t[1..3]), ParseDecimal(t[4..6]),
                   ParseDecimal(t[7..9]), ParseDecimal(t[10..])))
      else None
  }

  /** A field below 100 pads to exactly two digits that read back as the field. */
  lemma Pad2RoundTrip(n: nat)
    requires n < 100
    ensures |Pad2(n)| == 2 && AllDigits(Pad2(n)) && ParseDecimal(Pad2(n)) == n
  {
    var p := Pad2(n);
    if n < 10 {
      assert p == ['0', DigitChar(n)];
      assert p[..1] == ['0'] && p[..1][..0] == [];
      assert DigitValue(p[1]) == n;
      assert ParseDecimal(p[..1]) == 0;
    } else {
      ParseDecimalString(n);
    }
  }

  /** Four two-digit fields joined by the stamp's separators form a stamp tail that holds
      them in place. */
  lemma StampTailLayout(mo: string, d: string, h: string, mi: string)
    requires |mo| == 2 && |d| == 2 && |h| == 2 && |mi| == 2
    requires AllDigits(mo) && AllDigits(d) && AllDigits(h) && AllDigits(mi)
    ensures var t := "-" + mo + "-" + d + " " + h + ":" + mi;
      IsStampTail(t) && t[1..3] == mo && t[4..6] == d && t[7..9] == h && t[10..] == mi
  {
    var t := "-" + mo + "-" + d + " " + h + ":" + mi;
    assert t[1..3] == mo && t[4..6] == d && t[7..9] == h && t[10..] == mi;
  }

  /** Digits followed by a stamp tail parse back as the year and the tail's four fields. */
  lemma ParseStampSplit(ys: string, t: string)
    requires |ys| >= 1 && AllDigits(ys) && IsStampTail(t)
    ensures ParseStamp(ys + t)
         == Some(Stamp(ParseDecimal(ys), ParseDecimal(t[1..3]), ParseDecimal(t[4..6]),
                       ParseDecimal(t[7..9]), ParseDecimal(t[10..])))
  {
    var r := ys + t;
    assert r[..|r| - 12] == ys && r[|r| - 12..] == t;
  }

  /** The stamp of a clock reading is the year's digits followed by twelve characters, so a
      four-digit year gives the sixteen characters of `YYYY-MM-DD HH:MM`. */
  lemma FormattedDateLength(year: nat, month: nat, day: nat, hours: nat, minutes: nat)
    requires 1 <= month <= 12 && 1 <= day <= 31 && hours < 24 && minutes < 60
    ensures |FormattedDate(year, month, day, hours, minutes)| == |DecimalString(year)| + 12
    ensures 1000 <= year < 10000 ==> |FormattedDate(year, month, day, hours, minutes)| == 16
  {
    Pad2RoundTrip(month);
    Pad2RoundTrip(day);
    Pad2RoundTrip(hours);
    Pad2RoundTrip(minutes);
  }

  /** The stamp of a clock reading has the separators in place and every field after the
      year exactly two digits, and parsing it gives back the clock's fields. */
  lemma {:induction false} FormattedDateRoundTrip(year: nat, month: nat, day: nat, hours: nat, minutes: nat)
    requires 1 <= month <= 12 && 1 <= day <= 31 && hours < 24 && minutes < 60
    ensures ParseStamp(FormattedDate(year, month, day, hours, minutes))
         == Some(Stamp(year, month, day, hours, minutes))
  {
    Pad2RoundTrip(month);
    Pad2RoundTrip(day);
    Pad2RoundTrip(hours);
    Pad2RoundTrip(minutes);
    ParseDecimalString(year);
    var t := "-" + Pad2(month) + "-" + Pad2(day) + " " + Pad2(hours) + ":" + Pad2(minutes);
    StampTailLayout(Pad2(month), Pad2(day), Pad2(hours), Pad2(minutes));
    assert FormattedDate(year, month, day, hours, minutes) == DecimalString(year) + t;
    ParseStampSplit(DecimalString(year), t);
  }
}
