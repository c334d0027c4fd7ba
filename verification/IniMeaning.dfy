// A rewritten file read back: a file behaves as a map from (section, key) to
// value, for every way a value can be put into it.
module IniMeaning {
  import opened Wrappers
  import opened IniText
  import opened Ini

  predicate GoodSection(s: string) {
    '\n' !in s && ']' !in s && |s| <= BUFFER_SIZE - 5
  }

  // A key the reader can find: it does not begin like a header or a comment,
  // has no blanks at its ends and no '='.
  predicate GoodKey(k: string) {
    && k != "" && !Blank(k[0]) && !Blank(k[|k| - 1])
    && k[0] != '[' && !IsComment(k) && '=' !in k
  }

  predicate GoodLine(k: string, v: string) {
    GoodKey(k) && '\n' !in k && '\n' !in v && |k| + |v| <= BUFFER_SIZE - 4
  }

  function KeyEntry(k: string, v: string): string {
    SkipTrailing(k + "=" + v)
  }

  function HeaderEntry(section: string): string {
    "[" + section + "]"
  }

  predicate GoodPut(section: string, key: Option<string>, value: Option<string>) {
    && GoodSection(section)
    && (key.Some? ==> GoodKey(key.value))
    && (key.Some? && value.Some? ==> GoodLine(key.value, value.value))
  }

  // The line a put adds, if it adds one.
  function Added(key: Option<string>, value: Option<string>): seq<string> {
    if key.Some? && value.Some? then [KeyEntry(key.value, value.value)] else []
  }

  // The entries from inside the section on, with the new line in place.
  function Keyed(es: seq<string>, key: Option<string>, line: seq<string>): seq<string> {
    if es == [] then line
    else if IsHeader(es[0]) then line + es
    else if key.Some? && WriterMatches(es[0], key.value) then line + es[1..]
    else (if key.Some? then [es[0]] else []) + Keyed(es[1..], key, line)
  }

  function Sectioned(es: seq<string>, section: string, key: Option<string>, line: seq<string>): seq<string> {
    if es == [] then (if line == [] then [] else [HeaderEntry(section)] + line)
    else if HeaderOf(es[0], section) then (if key.Some? then [es[0]] else []) + Keyed(es[1..], key, line)
    else [es[0]] + Sectioned(es[1..], section, key, line)
  }

  // ------------------------------------------------ the text and its entries

  lemma LinePiece(text: string)
    requires text != "" && Fits(text)
    ensures Piece(Line(text)) && Fits(Rest(text))
    ensures Line(text)[|Line(text)| - 1] == '\n' || Rest(text) == ""
  {
    var n := LineLength(text);
    assert text[..n][..n - 1] == text[..n - 1];
    var i := Find(text, '\n');
    assert text[..n - 1] == text[..i][..n - 1];
  }

  // What is left of a line that is not blank is a piece that ends like it.
  lemma SkippedPiece(text: string)
    requires text != "" && Fits(text)
    ensures Fits(Rest(text))
    ensures var sp := SkipLeading(Line(text));
            sp != "" ==> Piece(sp) && Entry(sp) == Entry(Line(text))
                         && (sp[|sp| - 1] == '\n' || Rest(text) == "")
  {
    hide Line, Rest, Fits, LineLength, SkipLeading, SkipTrailing;
    LinePiece(text);
    SkippedOf(Line(text));
  }

  lemma SkippedOf(line: string)
    requires Piece(line)
    ensures var sp := SkipLeading(line);
            sp != "" ==> Piece(sp) && Entry(sp) == Entry(line) && sp[|sp| - 1] == line[|line| - 1]
  {
    SkipLeadingStops(line);
    hide SkipLeading, SkipTrailing;
    var sp := SkipLeading(line);
    if sp != "" {
      assert sp[|sp| - 1] == line[|line| - 1];
      assert sp[..|sp| - 1] == line[..|line| - 1][|line| - |sp|..];
    }
  }

  lemma EntriesStep(text: string)
    requires text != ""
    ensures Entries(text) == Entry(Line(text)) + Entries(Rest(text))
    ensures SkipLeading(Line(text)) == "" ==> Entry(Line(text)) == []
    ensures SkipLeading(Line(text)) != "" ==> Entry(Line(text)) == [SkipTrailing(SkipLeading(Line(text)))]
  {
    ReadStep(text, "", "");
  }

  lemma NewLine()
    ensures Piece("\n") && Entry("\n") == []
  {
    SkipLeadingThenBlank("", '\n');
    assert "" + "\n" == "\n";
    assert "\n"[..0] == "";
  }

  lemma AfterNewLine(more: string)
    requires Fits(more)
    ensures Entries("\n" + more) == Entries(more) && Fits("\n" + more)
  {
    NewLine();
    EntriesOf("\n", more);
  }

  lemma KeyTextEntry(k: string, v: string)
    requires GoodLine(k, v)
    ensures KeyText(k, v) == k + "=" + v + "\n"
    ensures Piece(KeyText(k, v)) && KeyText(k, v)[|KeyText(k, v)| - 1] == '\n'
    ensures Entry(KeyText(k, v)) == [KeyEntry(k, v)]
  {
    var s := k + "=" + v;
    assert KeyText(k, v) == s + "\n";
    assert (s + "\n")[..|s|] == s;
    SkipLeadingThenBlank(s, '\n');
    assert SkipLeading(s) == s;
    SkipTrailingOfSuffix(s, 0);
  }

  lemma SectionTextEntry(section: string)
    requires GoodSection(section) && section != ""
    ensures SectionText(section) == "[" + section + "]" + "\n"
    ensures Piece(SectionText(section)) && SectionText(section)[|SectionText(section)| - 1] == '\n'
    ensures Entry(SectionText(section)) == [HeaderEntry(section)]
  {
    var s := "[" + section + "]";
    assert SectionText(section) == s + "\n";
    assert (s + "\n")[..|s|] == s;
    SkipLeadingThenBlank(s, '\n');
  }

  lemma {:induction false} CopiedRest(text: string)
    requires Fits(text)
    ensures Entries(CopyRest(text)) == Entries(text) && Fits(CopyRest(text))
    decreases |text|
  {
    hide SkipLeading, Line, Rest, Entry, LineLength, Piece;
    if text != "" {
      Shorter(text);
      SkippedPiece(text);
      EntriesStep(text);
      CopiedRest(Rest(text));
      var sp, more := SkipLeading(Line(text)), CopyRest(Rest(text));
      if sp != "" {
        EntriesOf(sp, more);
        AfterNewLine(sp + more);
        Assoc("\n", sp, more);
        assert "" + sp == sp;
      } else {
        assert "" + more == more;
      }
    }
  }

  lemma KeyTextThen(k: string, v: string, more: string)
    requires GoodLine(k, v) && Fits(more)
    ensures Entries(KeyText(k, v) + more) == [KeyEntry(k, v)] + Entries(more) && Fits(KeyText(k, v) + more)
  {
    KeyTextEntry(k, v);
    EntriesOf(KeyText(k, v), more);
  }

  lemma AddedThen(key: Option<string>, value: Option<string>, more: string)
    requires GoodPut("", key, value) && Fits(more)
    ensures Entries(KeyTextIf(key, value) + more) == Added(key, value) + Entries(more)
    ensures Fits(KeyTextIf(key, value) + more)
  {
    hide Entries, Fits, KeyText, KeyEntry, GoodLine, GoodKey;
    if key.Some? && value.Some? {
      KeyTextThen(key.value, value.value, more);
    } else {
      assert "" + more == more;
    }
  }

  // The line put before the next header, unlike the others written piecemeal.
  lemma BeforeHeader(key: Option<string>, value: Option<string>, more: string)
    requires GoodPut("", key, value) && Fits(more)
    ensures var line := if key.Some? && value.Some? then key.value + "=" + value.value + "\n\n" else "";
            Entries(line + more) == Added(key, value) + Entries(more) && Fits(line + more)
  {
    hide Entries, Fits, KeyText, KeyEntry, GoodLine;
    if key.Some? && value.Some? {
      KeyTextEntry(key.value, value.value);
      AfterNewLine(more);
      KeyTextThen(key.value, value.value, "\n" + more);
      var s := key.value + "=" + value.value;
      assert "\n\n" == "\n" + "\n";
      Assoc(s, "\n", "\n");
      Assoc(s + "\n", "\n", more);
    } else {
      assert "" + more == more;
    }
  }

  lemma {:induction false} RewrittenKeys(text: string, key: Option<string>, value: Option<string>)
    requires Fits(text) && GoodPut("", key, value)
    ensures Entries(RewriteKeys(text, key, value)) == Keyed(Entries(text), key, Added(key, value))
    ensures Fits(RewriteKeys(text, key, value))
    decreases |text|
  {
    hide SkipLeading, SkipTrailing, Line, Rest, Entry, LineLength, Piece, KeyText, WriterMatches, CopyRest,
         GoodLine, GoodKey;
    if text == "" {
      if key.Some? && value.Some? {
        KeyTextThen(key.value, value.value, "");
        assert KeyText(key.value, value.value) + "" == KeyText(key.value, value.value);
        AfterNewLine(KeyText(key.value, value.value));
      }
    } else {
      Shorter(text);
      SkippedPiece(text);
      EntriesStep(text);
      var sp := SkipLeading(Line(text));
      ReadStep(text, "", if key.Some? then key.value else "");
      CopiedRest(Rest(text));
      RewrittenKeys(Rest(text), key, value);
      if IsHeader(sp) {
        RewrittenHeader(text, sp, key, value);
      } else if key.Some? && WriterMatches(sp, key.value) {
        AddedThen(key, value, CopyRest(Rest(text)));
      } else {
        KeptLine(text, sp, key, value);
      }
    }
  }

  lemma RewrittenHeader(text: string, sp: string, key: Option<string>, value: Option<string>)
    requires text != "" && Fits(text) && GoodPut("", key, value) && sp == SkipLeading(Line(text)) && IsHeader(sp)
    requires Entries(CopyRest(Rest(text))) == Entries(Rest(text)) && Fits(CopyRest(Rest(text)))
    ensures Entries(RewriteKeys(text, key, value)) == Added(key, value) + Entries(text)
    ensures Fits(RewriteKeys(text, key, value))
  {
    hide SkipLeading, SkipTrailing, Line, Rest, Entry, LineLength, Piece, GoodLine, GoodKey;
    SkippedPiece(text);
    EntriesStep(text);
    var more := CopyRest(Rest(text));
    EntriesOf(sp, more);
    BeforeHeader(key, value, sp + more);
    var line := if key.Some? && value.Some? then key.value + "=" + value.value + "\n\n" else "";
    Assoc(line, sp, more);
  }

  lemma KeptLine(text: string, sp: string, key: Option<string>, value: Option<string>)
    requires text != "" && Fits(text) && sp == SkipLeading(Line(text))
    requires Fits(RewriteKeys(Rest(text), key, value))
    ensures var more := RewriteKeys(Rest(text), key, value);
            && Entries((if key.Some? then sp else "") + more) ==
                (if key.Some? then Entry(Line(text)) else []) + Entries(more)
            && Fits((if key.Some? then sp else "") + more)
  {
    hide SkipLeading, SkipTrailing, Line, Rest, Entry, LineLength, Piece, KeyText;
    SkippedPiece(text);
    EntriesStep(text);
    var more := RewriteKeys(Rest(text), key, value);
    assert "" + more == more;
    if key.Some? && sp != "" {
      EntriesOf(sp, more);
    }
  }

  lemma {:induction false} RewrittenFrom(text: string, section: string, key: Option<string>,
      value: Option<string>, copied: bool)
    requires Fits(text) && GoodPut(section, key, value) && section != ""
    ensures var out := RewriteFrom(text, section, key, value, copied);
            Entries(out) == Sectioned(Entries(text), section, key, Added(key, value)) && Fits(out)
    decreases |text|
  {
    hide SkipLeading, SkipTrailing, Line, Rest, Entry, LineLength, Piece, KeyText, SectionText, HeaderOf,
         RewriteKeys, GoodLine, GoodKey;
    if text == "" {
      if key.Some? && value.Some? {
        NewSection(section, key.value, value.value);
      }
    } else {
      Shorter(text);
      EntriesStep(text);
      SkippedPiece(text);
      var sp := SkipLeading(Line(text));
      ReadStep(text, section, "");
      var found := HeaderOf(sp, section);
      var keep := (!found || key.Some?) && sp != "";
      if found {
        assert GoodPut("", key, value);
        RewrittenKeys(Rest(text), key, value);
        EndsWithBreak(key, value);
        LineThen(text, keep, IsHeader(sp) && copied, RewriteKeys(Rest(text), key, value));
      } else {
        RewrittenFrom(Rest(text), section, key, value, copied || keep);
        LineThen(text, keep, IsHeader(sp) && copied, RewriteFrom(Rest(text), section, key, value, copied || keep));
      }
    }
  }

  // What is added at the end of the file starts a new line.
  lemma EndsWithBreak(key: Option<string>, value: Option<string>)
    ensures var more := RewriteKeys("", key, value); more == "" || more[0] == '\n'
  {
  }

  // One line copied, or not, with or without a blank line before it.
  lemma LineThen(text: string, keep: bool, broken: bool, more: string)
    requires text != "" && Fits(text) && Fits(more)
    requires keep ==> SkipLeading(Line(text)) != ""
    requires Rest(text) == "" ==> more == "" || more[0] == '\n'
    ensures var out := (if keep then (if broken then "\n" else "") + SkipLeading(Line(text)) else "") + more;
            Entries(out) == (if keep then Entry(Line(text)) else []) + Entries(more) && Fits(out)
  {
    hide SkipLeading, SkipTrailing, Line, Rest, Entry, LineLength, Piece, Entries, Fits;
    SkippedPiece(text);
    var sp := SkipLeading(Line(text));
    if keep {
      EntriesOf(sp, more);
      AfterNewLine(sp + more);
      Assoc("\n", sp, more);
      assert "" + sp == sp;
    } else {
      assert "" + more == more;
    }
  }

  lemma NewSection(section: string, k: string, v: string)
    requires GoodLine(k, v) && GoodSection(section)
    ensures var out := "\n" + SectionText(section) + KeyText(k, v);
            && Fits(out)
            && Entries(out) == (if section == "" then [] else [HeaderEntry(section)]) + [KeyEntry(k, v)]
    ensures var out := SectionText(section) + KeyText(k, v);
            && Fits(out)
            && Entries(out) == (if section == "" then [] else [HeaderEntry(section)]) + [KeyEntry(k, v)]
  {
    hide Entry, LineLength, Piece, KeyText, GoodLine, GoodKey;
    KeyTextThen(k, v, "");
    assert KeyText(k, v) + "" == KeyText(k, v);
    Assoc("\n", SectionText(section), KeyText(k, v));
    if section != "" {
      SectionTextEntry(section);
      EntriesOf(SectionText(section), KeyText(k, v));
    } else {
      assert "" + KeyText(k, v) == KeyText(k, v);
    }
    AfterNewLine(SectionText(section) + KeyText(k, v));
  }
}
