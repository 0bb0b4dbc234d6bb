/** String helpers of the to-do script: `String.prototype.trim` as applied to the
    task text, and `escapeHtml`, a chain of five `replaceAll` calls. */
module Text {

  /** The code points that ECMAScript's trim removes: the WhiteSpace set (tab,
      vertical tab, form feed, space, no-break space, the byte order mark and the
      Unicode space separators) and the LineTerminator set. */
  predicate IsWhitespace(c: char) {
    c == '\t' || c == '\n' || c == '\U{000B}' || c == '\U{000C}' || c == '\r' || c == ' '
    || c == '\U{00A0}' || c == '\U{1680}' || ('\U{2000}' <= c <= '\U{200A}')
    || c == '\U{2028}' || c == '\U{2029}' || c == '\U{202F}' || c == '\U{205F}'
    || c == '\U{3000}' || c == '\U{FEFF}'
  }

  ghost predicate AllWhitespace(s: string) {
    forall i :: 0 <= i < |s| ==> IsWhitespace(s[i])
  }

  function TrimStart(s: string): (r: string)
    ensures |r| <= |s|
    ensures r != [] ==> !IsWhitespace(r[0])
  {
    if s != [] && IsWhitespace(s[0]) then TrimStart(s[1..]) else s
  }

  function TrimEnd(s: string): (r: string)
    ensures |r| <= |s| && r == s[..|r|]
    ensures r != [] ==> !IsWhitespace(r[|r| - 1])
  {
    if s != [] && IsWhitespace(s[|s| - 1]) then TrimEnd(s[..|s| - 1]) else s
  }

  /** `s.trim()`: never longer than the input, and neither starting nor ending
      with whitespace. */
  function Trim(s: string): (r: string)
    ensures |r| <= |s|
    ensures r != [] ==> !IsWhitespace(r[0]) && !IsWhitespace(r[|r| - 1])
  {
    TrimEnd(TrimStart(s))
  }

  /** TrimStart removes a whitespace prefix and stops at the first other character. */
  lemma {:induction false} TrimStartShape(s: string)
    ensures |TrimStart(s)| <= |s|
    ensures TrimStart(s) == s[|s| - |TrimStart(s)|..]
    ensures AllWhitespace(s[..|s| - |TrimStart(s)|])
    ensures TrimStart(s) != [] ==> !IsWhitespace(TrimStart(s)[0])
  {
    if s != [] && IsWhitespace(s[0]) {
      TrimStartShape(s[1..]);
      var k := |s| - |TrimStart(s)|;
      assert s[1..][..k - 1] == s[1..k];
      assert s[1..][k - 1..] == s[k..];
    }
  }

  /** TrimEnd removes a whitespace suffix and stops at the last other character. */
  lemma {:induction false} TrimEndShape(s: string)
    ensures |TrimEnd(s)| <= |s|
    ensures TrimEnd(s) == s[..|TrimEnd(s)|]
    ensures AllWhitespace(s[|TrimEnd(s)|..])
    ensures TrimEnd(s) != [] ==> !IsWhitespace(TrimEnd(s)[|TrimEnd(s)| - 1])
  {
    if s != [] && IsWhitespace(s[|s| - 1]) {
      var t := s[..|s| - 1];
      TrimEndShape(t);
      var k := |TrimEnd(s)|;
      assert t[..k] == s[..k];
      assert s[k..] == t[k..] + [s[|s| - 1]];
    }
  }

  /** The trimmed text is a middle slice of the input, with only whitespace cut
      off on either side, and it neither starts nor ends with whitespace. */
  lemma TrimShape(s: string)
    ensures exists i :: 0 <= i <= |s| - |Trim(s)| && Trim(s) == s[i..i + |Trim(s)|]
                        && AllWhitespace(s[..i]) && AllWhitespace(s[i + |Trim(s)|..])
    ensures Trim(s) != [] ==> !IsWhitespace(Trim(s)[0]) && !IsWhitespace(Trim(s)[|Trim(s)| - 1])
  {
    var a := TrimStart(s);
    TrimStartShape(s);
    TrimEndShape(a);
    MiddleSlice(s, a, Trim(s));
  }

  /** A prefix `r` of a suffix `a` of `s` is the slice of `s` at the suffix's
      start, and what `a` leaves after `r` is what `s` leaves after it. */
  lemma MiddleSlice(s: string, a: string, r: string)
    requires |a| <= |s| && a == s[|s| - |a|..]
    requires |r| <= |a| && r == a[..|r|]
    requires AllWhitespace(s[..|s| - |a|]) && AllWhitespace(a[|r|..])
    ensures exists i :: 0 <= i <= |s| - |r| && r == s[i..i + |r|]
                        && AllWhitespace(s[..i]) && AllWhitespace(s[i + |r|..])
  {
    var i := |s| - |a|;
    assert a[|r|..] == s[i + |r|..];
    assert r == s[i..i + |r|];
  }

  /** The text trims to nothing exactly when it is made of whitespace only. */
  lemma TrimEmptyIff(s: string)
    ensures Trim(s) == [] <==> AllWhitespace(s)
  {
    var a := TrimStart(s);
    TrimStartShape(s);
    TrimEndShape(a);
    if Trim(s) == [] {
      assert a == a[|Trim(s)|..];
      assert a == [];
      assert s == s[..|s| - |a|];
    } else {
      TrimShape(s);
    }
  }

  /** Trimming a trimmed text changes nothing. */
  lemma TrimIdempotent(s: string)
    ensures Trim(Trim(s)) == Trim(s)
  {
    var r := Trim(s);
    TrimShape(s);
    if r != [] {
      assert TrimStart(r) == r;
      assert TrimEnd(r) == r;
    }
  }

  // ---------------------------------------------------------------------------
  // escapeHtml

  /** `s.replaceAll(c, rep)` for a one-character pattern `c` and a replacement
      without `$` patterns (which JavaScript would expand); a non-empty
      replacement never shortens the text. */
  function ReplaceAll(s: string, c: char, rep: string): (r: string)
    ensures rep != [] ==> |r| >= |s|
  {
    if s == [] then [] else (if s[0] == c then rep else [s[0]]) + ReplaceAll(s[1..], c, rep)
  }

  /** The script's escapeHtml: `&` first, then `<`, `>`, `"` and `'`. Escaping
      never shortens the text. */
  function EscapeHtml(s: string): (r: string)
    ensures |r| >= |s|
  {
    ReplaceAll(ReplaceAll(ReplaceAll(ReplaceAll(ReplaceAll(s,
      '&', "&amp;"), '<', "&lt;"), '>', "&gt;"), '"', "&quot;"), '\'', "&#039;")
  }

  /** The replacement of one character, as an entity table. */
  function Entity(c: char): (e: string) {
    match c
    case '&' => "&amp;"
    case '<' => "&lt;"
    case '>' => "&gt;"
    case '"' => "&quot;"
    case '\'' => "&#039;"
    case _ => [c]
  }

  /** The reference escaping: every character replaced by its entity in one pass. */
  function EscapeEachChar(s: string): (r: string) {
    if s == [] then [] else Entity(s[0]) + EscapeEachChar(s[1..])
  }

  /** None of the characters that open markup or close an attribute value. */
  ghost predicate NoMarkup(s: string) {
    forall i :: 0 <= i < |s| ==> s[i] != '<' && s[i] != '>' && s[i] != '"' && s[i] != '\''
  }

  predicate IsSpecial(c: char) {
    c == '&' || c == '<' || c == '>' || c == '"' || c == '\''
  }

  predicate StartsWith(s: string, prefix: string) {
    |prefix| <= |s| && s[..|prefix|] == prefix
  }

  /** Decoding of the five entities that EscapeHtml produces; every other
      character is kept. */
  function Unescape(s: string): (r: string) {
    if s == [] then []
    else if StartsWith(s, "&amp;") then "&" + Unescape(s[5..])
    else if StartsWith(s, "&lt;") then "<" + Unescape(s[4..])
    else if StartsWith(s, "&gt;") then ">" + Unescape(s[4..])
    else if StartsWith(s, "&quot;") then "\"" + Unescape(s[6..])
    else if StartsWith(s, "&#039;") then "'" + Unescape(s[6..])
    else [s[0]] + Unescape(s[1..])
  }

  lemma {:induction false} ReplaceAllAppend(a: string, b: string, c: char, rep: string)
    ensures ReplaceAll(a + b, c, rep) == ReplaceAll(a, c, rep) + ReplaceAll(b, c, rep)
  {
    if a == [] {
      assert a + b == b;
    } else {
      assert (a + b)[0] == a[0];
      assert (a + b)[1..] == a[1..] + b;
      ReplaceAllAppend(a[1..], b, c, rep);
    }
  }

  lemma ReplaceAllSingle(x: char, c: char, rep: string)
    ensures ReplaceAll([x], c, rep) == if x == c then rep else [x]
  {
    assert [x][1..] == [];
  }

  lemma {:induction false} ReplaceAllAbsent(s: string, c: char, rep: string)
    requires c !in s
    ensures ReplaceAll(s, c, rep) == s
  {
    if s != [] {
      ReplaceAllAbsent(s[1..], c, rep);
    }
  }

  lemma EscapeHtmlAppend(a: string, b: string)
    ensures EscapeHtml(a + b) == EscapeHtml(a) + EscapeHtml(b)
  {
    var a1, b1 := ReplaceAll(a, '&', "&amp;"), ReplaceAll(b, '&', "&amp;");
    ReplaceAllAppend(a, b, '&', "&amp;");
    var a2, b2 := ReplaceAll(a1, '<', "&lt;"), ReplaceAll(b1, '<', "&lt;");
    ReplaceAllAppend(a1, b1, '<', "&lt;");
    var a3, b3 := ReplaceAll(a2, '>', "&gt;"), ReplaceAll(b2, '>', "&gt;");
    ReplaceAllAppend(a2, b2, '>', "&gt;");
    var a4, b4 := ReplaceAll(a3, '"', "&quot;"), ReplaceAll(b3, '"', "&quot;");
    ReplaceAllAppend(a3, b3, '"', "&quot;");
    ReplaceAllAppend(a4, b4, '\'', "&#039;");
  }

  /** Because `&` is replaced first, an entity introduced by one step is not
      touched by a later step: one character becomes exactly its entity. */
  lemma EscapeHtmlChar(x: char)
    ensures EscapeHtml([x]) == Entity(x)
  {
    ReplaceAllSingle(x, '&', "&amp;");
    if x == '&' {
      EscapeHtmlAmp(x);
    } else {
      ReplaceAllSingle(x, '<', "&lt;");
      if x == '<' {
        LaterStepsKeep("&lt;");
      } else {
        ReplaceAllSingle(x, '>', "&gt;");
        if x == '>' {
          LastStepsKeep("&gt;");
        } else {
          ReplaceAllSingle(x, '"', "&quot;");
          ReplaceAllSingle(x, '\'', "&#039;");
          if x == '"' {
            ReplaceAllAbsent("&quot;", '\'', "&#039;");
          }
        }
      }
    }
  }

  /** `&` escapes to `&amp;`. The character is a parameter equal to `&` rather
      than a literal, so that the solver does not unfold the chain over a
      literal string, which is far more costly. */
  lemma EscapeHtmlAmp(x: char)
    requires x == '&'
    ensures EscapeHtml([x]) == "&amp;"
  {
    ReplaceAllSingle(x, '&', "&amp;");
    AfterAmpKeep("&amp;");
  }

  /** The steps after `&` leave an entity alone. */
  lemma AfterAmpKeep(e: string)
    requires '<' !in e && '>' !in e && '"' !in e && '\'' !in e
    ensures ReplaceAll(ReplaceAll(ReplaceAll(ReplaceAll(e,
      '<', "&lt;"), '>', "&gt;"), '"', "&quot;"), '\'', "&#039;") == e
  {
    ReplaceAllAbsent(e, '<', "&lt;");
    LaterStepsKeep(e);
  }

  /** The steps after `<` leave an entity alone. */
  lemma LaterStepsKeep(e: string)
    requires '>' !in e && '"' !in e && '\'' !in e
    ensures ReplaceAll(ReplaceAll(ReplaceAll(e, '>', "&gt;"), '"', "&quot;"), '\'', "&#039;") == e
  {
    ReplaceAllAbsent(e, '>', "&gt;");
    LastStepsKeep(e);
  }

  lemma LastStepsKeep(e: string)
    requires '"' !in e && '\'' !in e
    ensures ReplaceAll(ReplaceAll(e, '"', "&quot;"), '\'', "&#039;") == e
  {
    ReplaceAllAbsent(e, '"', "&quot;");
    ReplaceAllAbsent(e, '\'', "&#039;");
  }

  /** The replaceAll chain equals the one-pass entity escaping. */
  lemma {:induction false} EscapeHtmlIsEachChar(s: string)
    ensures EscapeHtml(s) == EscapeEachChar(s)
  {
    if s == [] {
      assert EscapeHtml(s) == [];
    } else {
      assert s == [s[0]] + s[1..];
      EscapeHtmlAppend([s[0]], s[1..]);
      EscapeHtmlChar(s[0]);
      EscapeHtmlIsEachChar(s[1..]);
    }
  }

  lemma {:induction false} EscapeEachCharNoMarkup(s: string)
    ensures NoMarkup(EscapeEachChar(s))
  {
    if s != [] {
      EscapeEachCharNoMarkup(s[1..]);
      var e := Entity(s[0]);
      assert NoMarkup(e);
      assert EscapeEachChar(s) == e + EscapeEachChar(s[1..]);
    }
  }

  /** The escaped text contains no raw `<`, `>`, `"` or `'`. */
  lemma EscapeHtmlNoMarkup(s: string)
    ensures NoMarkup(EscapeHtml(s))
  {
    EscapeHtmlIsEachChar(s);
    EscapeEachCharNoMarkup(s);
  }

  /** Text without any of the five special characters is copied unchanged. */
  lemma {:induction false} EscapeHtmlPlain(s: string)
    requires forall i :: 0 <= i < |s| ==> !IsSpecial(s[i])
    ensures EscapeHtml(s) == s
  {
    EscapeHtmlIsEachChar(s);
    EachCharPlain(s);
  }

  lemma {:induction false} EachCharPlain(s: string)
    requires forall i :: 0 <= i < |s| ==> !IsSpecial(s[i])
    ensures EscapeEachChar(s) == s
  {
    if s != [] {
      EachCharPlain(s[1..]);
    }
  }

  lemma StartsWithAt(s: string, prefix: string, k: nat)
    requires k < |prefix|
    ensures StartsWith(s, prefix) ==> k < |s| && s[k] == prefix[k]
  {
    if StartsWith(s, prefix) {
      assert s[..|prefix|][k] == s[k];
    }
  }

  /** An entity followed by more text decodes to its character, then the rest. */
  lemma UnescapeEntity(x: char, t: string)
    ensures Unescape(Entity(x) + t) == [x] + Unescape(t)
  {
    var e := Entity(x);
    var s := e + t;
    assert s[..|e|] == e;
    assert s[|e|..] == t;
    if !IsSpecial(x) {
      NotAnEntity(s);
    } else if x == '<' {
      StartsWithAt(s, "&amp;", 1);
    } else if x == '>' {
      StartsWithAt(s, "&amp;", 1);
      StartsWithAt(s, "&lt;", 1);
    } else if x == '"' {
      StartsWithAt(s, "&amp;", 1);
      StartsWithAt(s, "&lt;", 1);
      StartsWithAt(s, "&gt;", 1);
    } else if x == '\'' {
      StartsWithAt(s, "&amp;", 1);
      StartsWithAt(s, "&lt;", 1);
      StartsWithAt(s, "&gt;", 1);
      StartsWithAt(s, "&quot;", 1);
    }
  }

  /** Text that does not start with `&` is not decoded at its first character. */
  lemma NotAnEntity(s: string)
    requires s != [] && s[0] != '&'
    ensures Unescape(s) == [s[0]] + Unescape(s[1..])
  {
    StartsWithAt(s, "&amp;", 0);
    StartsWithAt(s, "&lt;", 0);
    StartsWithAt(s, "&gt;", 0);
    StartsWithAt(s, "&quot;", 0);
    StartsWithAt(s, "&#039;", 0);
  }

  /** Decoding the escaped text gives back the original text. */
  lemma {:induction false} UnescapeEscapeHtml(s: string)
    ensures Unescape(EscapeHtml(s)) == s
  {
    EscapeHtmlIsEachChar(s);
    UnescapeEachChar(s);
  }

  lemma {:induction false} UnescapeEachChar(s: string)
    ensures Unescape(EscapeEachChar(s)) == s
  {
    if s != [] {
      UnescapeEntity(s[0], EscapeEachChar(s[1..]));
      UnescapeEachChar(s[1..]);
    }
  }
}
