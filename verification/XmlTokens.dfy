/** The tokens the parser sees in text of known shape. */
module XmlTokens {
  import opened Wrappers
  import opened XmlChars
  import opened XmlText
  import opened XmlSyntax

  // ---- Names ----

  predicate NameChars(n: string) {
    n == "" ||
    var d := Utf8ToInt(n, 0);
    IsNameChar(d, true) && n[..d.len] == IntToUtf8(d.c) && NameChars(n[d.len..])
  }

  /** A Name (XML 1.0, section 2.3) in shortest-form UTF-8. */
  predicate IsName(n: string) {
    n != "" && IsNameChar(Utf8ToInt(n, 0), false) && NameChars(n)
  }

  lemma {:induction false} NameCharsWellFormed(n: string)
    requires NameChars(n)
    ensures WellFormed(n) && '&' !in n
    decreases |n|
  {
    hide IsNameChar, IsXmlChar, IntToUtf8, Utf8ToInt;
    if n != "" {
      var d := Utf8ToInt(n, 0);
      assert d.Code? by { NameIsCode(d, true); }
      NameCharIsXmlChar(d, true);
      NameCharsWellFormed(n[d.len..]);
      assert n == n[..d.len] + n[d.len..];
      FirstNoAmp(n);
    }
  }

  lemma NameIsCode(d: Decoded, inside: bool)
    requires IsNameChar(d, inside)
    ensures d.Code? && d.c != '&' as int
  {
  }

  lemma FirstNoAmp(n: string)
    requires n != "" && IsNameChar(Utf8ToInt(n, 0), true)
    ensures '&' !in n[..Utf8ToInt(n, 0).len]
  {
    hide IsNameChar, Utf8ToInt;
    var d := Utf8ToInt(n, 0);
    NameIsCode(d, true);
    Utf8Bytes(n, 0);
    forall k | 0 <= k < d.len ensures n[k] != '&' {
      if k > 0 {
        TailIsHigh(n, 0, d.len - 1, k);
        assert n[k] == At(n, k);
      }
    }
  }

  /** A byte that no name contains. */
  predicate IsDelimiter(c: char) {
    c in {' ', '\t', '\n', '\r', '>', '=', '/', '<', '"', '\''}
  }

  lemma DelimiterEndsName(s: string, i: nat)
    requires IsDelimiter(At(s, i))
    ensures Utf8ToInt(s, i) == Code(At(s, i) as int, 1)
    ensures !IsNameChar(Utf8ToInt(s, i), true) && !IsNameChar(Utf8ToInt(s, i), false)
  {
  }

  /** The first byte of a name is no delimiter, and no `!`, `?` or `'`. */
  lemma NameStart(n: string)
    requires IsName(n)
    ensures n != "" && !IsDelimiter(n[0]) && n[0] != '!' && n[0] != '?' && n[0] != '\'' && n[0] != '&'
    ensures !IsSpace(n[0])
  {
    hide NameChars, IsHighLetter, IsHighMark;
    Utf8Bytes(n, 0);
  }

  lemma NameStartAt(s: string, p: nat, n: string)
    requires IsName(n) && Matches(s, p, n)
    ensures p < |s| && s[p] == n[0] && !IsSpace(s[p]) && !IsDelimiter(s[p])
    ensures s[p] != '!' && s[p] != '?' && s[p] != '\'' && s[p] != '&'
  {
    hide IsName;
    NameStart(n);
    assert s[p..p + |n|][0] == n[0];
  }

  /** Decoding a name character gives the same wherever the name stands. */
  lemma NameCharAt(s: string, p: nat, n: string)
    requires n != "" && NameChars(n) && Matches(s, p, n)
    ensures Utf8ToInt(s, p) == Utf8ToInt(n, 0)
    ensures Matches(s, p + Utf8ToInt(n, 0).len, n[Utf8ToInt(n, 0).len..])
    ensures Utf8ToInt(n, 0).Code? && IsNameChar(Utf8ToInt(n, 0), true) && NameChars(n[Utf8ToInt(n, 0).len..])
  {
    NameCharsWellFormed(n);
    FirstChar(n);
    var d := Utf8ToInt(n, 0);
    hide Utf8ToInt, IntToUtf8, IsNameChar;
    assert n == IntToUtf8(d.c) + n[d.len..];
    MatchesAppend(s, p, IntToUtf8(d.c), n[d.len..]);
    XmlCharRange(d.c);
    DecodeEncoded(s, p, d.c);
  }

  lemma XmlCharRange(c: int)
    requires IsXmlChar(c)
    ensures 0 <= c <= 0x7FFFFFFF
  {
  }

  lemma {:induction false} NameEndAt(s: string, p: nat, n: string)
    requires NameChars(n) && Matches(s, p, n) && IsDelimiter(At(s, p + |n|))
    ensures NameEnd(s, p) == p + |n|
    decreases |n|
  {
    hide Utf8ToInt, IsNameChar, NameChars;
    if n == "" {
      DelimiterEndsName(s, p);
    } else {
      var d := Utf8ToInt(n, 0);
      NameCharAt(s, p, n);
      NameEndAt(s, p + d.len, n[d.len..]);
    }
  }

  // ---- Tokens ----

  /** Nothing but white space is skipped where no comment or instruction starts. */
  lemma SkipMiscPlain(s: string, i: nat)
    requires i <= |s| && (At(s, i) != '<' || (At(s, i + 1) != '!' && At(s, i + 1) != '?'))
    ensures SkipMisc(s, i) == Skip(true, SkipSpaces(s, i))
  {
    if At(s, i) != '<' {
      assert Lower(At(s, i)) != '<';
      FoldDiffers(s, i, "<!--", 0);
      FoldDiffers(s, i, "<?xml ", 0);
      FoldDiffers(s, i, "<?xml?", 0);
      FoldDiffers(s, i, "<?", 0);
    } else {
      assert Lower(At(s, i + 1)) != '!' && Lower(At(s, i + 1)) != '?';
      FoldDiffers(s, i, "<!--", 1);
      FoldDiffers(s, i, "<?xml ", 1);
      FoldDiffers(s, i, "<?xml?", 1);
      FoldDiffers(s, i, "<?", 1);
    }
  }

  lemma SkipOneSpace(s: string, i: nat, j: nat)
    requires i <= j <= |s| && j - i <= 1 && (i < j ==> IsSpace(s[i])) && !IsSpace(At(s, j))
    ensures SkipSpaces(s, i) == j
  {
    if i < j { assert SkipSpaces(s, j) == j; }
  }

  lemma CopyAscii(s: string, p: nat)
    requires p < |s| && 0x20 <= s[p] as int < 0x80 && s[p] != '&'
    ensures GetChar(s, p) == Code(s[p] as int, 1) && Copied(GetChar(s, p)) == [s[p]]
    ensures CopyToken(s, p, 1) == Some([s[p]])
  {
    assert Decode(s, p + 1, p + 1) == Some("");
    assert [s[p]] + "" == [s[p]];
  }

  lemma CopyAscii2(s: string, p: nat)
    requires p + 1 < |s| && 0x20 <= s[p] as int < 0x80 && s[p] != '&'
    requires 0x20 <= s[p + 1] as int < 0x80 && s[p + 1] != '&'
    ensures CopyToken(s, p, 2) == Some([s[p], s[p + 1]])
  {
    CopyAscii(s, p);
    CopyAscii(s, p + 1);
    hide GetChar, Copied;
    assert Decode(s, p + 1, p + 2) == Some([s[p + 1]]);
    assert [s[p]] + [s[p + 1]] == [s[p], s[p + 1]];
  }

  /** `</` */
  lemma TokenEndOpen(s: string, p: nat)
    requires p + 1 < |s| && s[p] == '<' && s[p + 1] == '/'
    ensures NextToken(s, p) == Token("</", p + 2)
  {
    SkipMiscPlain(s, p);
    SkipOneSpace(s, p, p);
    DelimiterEndsName(s, p + 1);
    CopyAscii2(s, p);
    hide CopyToken, SkipMisc, Utf8ToInt, IsNameChar;
  }

  /** `<` before a name. */
  lemma TokenStartOpen(s: string, p: nat, n: string)
    requires p < |s| && s[p] == '<' && IsName(n) && Matches(s, p + 1, n)
    ensures NextToken(s, p) == Token("<", p + 1)
  {
    hide NextToken, CopyToken, SkipMisc, Utf8ToInt, IsNameChar, NameChars, IsName;
    NameStartAt(s, p + 1, n);
    NameFirst(n);
    NameCharAt(s, p + 1, n);
    SlashIsNoName(Utf8ToInt(n, 0));
    assert TokenLength(s, p) == 1;
    hide TokenLength, Matches;
    SkipMiscPlain(s, p);
    SkipOneSpace(s, p, p);
    CopyAscii(s, p);
    TokenIs(s, p, p, 1, "<");
  }

  lemma NameFirst(n: string)
    requires IsName(n)
    ensures IsNameChar(Utf8ToInt(n, 0), false) && NameChars(n) && n != ""
  {
  }

  lemma TokenIs(s: string, i: nat, p: nat, n: nat, w: string)
    requires i <= p < |s| && SkipMisc(s, i) == Skip(true, p)
    requires TokenLength(s, p) == n && CopyToken(s, p, n) == Some(w)
    ensures NextToken(s, i) == Token(w, p + n)
  {
    hide SkipMisc, TokenLength, CopyToken;
  }

  lemma SlashIsNoName(d: Decoded)
    requires IsNameChar(d, false)
    ensures d.c != '/' as int
  {
  }

  /** `>`, `=` and the quotes are tokens of their own; i may stand on white space before them. */
  lemma TokenMark(s: string, i: nat, p: nat)
    requires i <= p < |s| && SkipSpaces(s, i) == p
    requires s[p] in {'>', '=', '"', '\''}
    ensures NextToken(s, i) == Token([s[p]], p + 1)
  {
    assert At(s, i) != '<';
    SkipMiscPlain(s, i);
    CopyAscii(s, p);
    hide CopyToken, SkipMisc;
  }

  lemma TokenClose(s: string, i: nat, p: nat)
    requires i <= p < |s| && SkipSpaces(s, i) == p && s[p] == '/' && At(s, p + 1) == '>'
    ensures SkipMisc(s, i) == Skip(true, p) && NextToken(s, i) == Token("/>", p + 2)
  {
    assert At(s, i) != '<';
    SkipMiscPlain(s, i);
    CopyAscii2(s, p);
    hide CopyToken, SkipMisc;
  }

  /** A name before a delimiter; i may stand on white space before it. */
  lemma TokenName(s: string, i: nat, p: nat, n: string)
    requires i <= p < |s| && SkipSpaces(s, i) == p && IsName(n) && Matches(s, p, n) && IsDelimiter(At(s, p + |n|))
    ensures NextToken(s, i) == Token(n, p + |n|)
  {
    hide NextToken, SkipMisc, TokenLength, CopyToken, IsName, Matches;
    NameStartAt(s, p, n);
    assert At(s, i) != '<';
    SkipMiscPlain(s, i);
    TokenLengthName(s, p, n);
    CopyName(s, p, n);
    TokenIs(s, i, p, |n|, n);
  }

  lemma CopyName(s: string, p: nat, n: string)
    requires IsName(n) && Matches(s, p, n)
    ensures |n| > 0 && CopyToken(s, p, |n|) == Some(n)
  {
    hide Decode, NameChars;
    NameFirst(n);
    NameCharsWellFormed(n);
    DecodePlain(s, p, n);
  }

  lemma TokenLengthName(s: string, p: nat, n: string)
    requires IsName(n) && Matches(s, p, n) && IsDelimiter(At(s, p + |n|))
    ensures TokenLength(s, p) == |n|
  {
    hide Utf8ToInt, NameEnd, NameChars;
    NameStartAt(s, p, n);
    var d := Utf8ToInt(n, 0);
    assert IsNameChar(d, false);
    hide IsNameChar;
    NameCharAt(s, p, n);
    NameEndAt(s, p + d.len, n[d.len..]);
  }
}
