// The file a put or an erasure leaves, byte for byte, on the lines of the file
// before it (ini.c 340-505).
module IniLayout {
  import opened Wrappers
  import opened IniText
  import opened Ini
  import opened IniMap
  import opened IniReading

  predicate Heads(line: string) {
    IsHeader(Trim(line))
  }

  // A line as it is copied: without the blanks in front, and not at all when
  // there is nothing else on it.
  function Shown(line: string): string {
    if Blanks(line) then "" else SkipLeading(line) + "\n"
  }

  // Lines as they are copied: a header behind something else gets an empty
  // line in front, and there are no other empty lines.
  function Copied(lines: seq<string>, after: bool): string {
    if lines == [] then ""
    else
      (if after && Heads(lines[0]) then "\n" else "") + Shown(lines[0])
      + Copied(lines[1..], after || !Blanks(lines[0]))
  }

  // Where the new line goes, among the lines behind the section's header: in
  // place of the key's line, above the next header, or to the end.
  datatype Place =
    | AtLine(before: seq<string>, line: string, rest: seq<string>)
    | AtHeader(before: seq<string>, header: string, rest: seq<string>)
    | AtEnd(before: seq<string>)
  {
    function Lines(): seq<string> {
      match this
      case AtLine(b, l, r) => b + [l] + r
      case AtHeader(b, h, r) => b + [h] + r
      case AtEnd(b) => b
    }

    predicate Is(key: string) {
      && (forall b :: b in before ==> !Heads(b) && !WriterMatches(Trim(b), key))
      && (AtLine? ==> !Heads(line) && WriterMatches(Trim(line), key))
      && (AtHeader? ==> Heads(header))
    }
  }

  // The lines from behind the header on, with the new line, or without the
  // one it had.
  function Laid(p: Place, key: string, value: Option<string>): string {
    match p
    case AtLine(b, _, r) =>
      Copied(b, true) + (if value.Some? then key + "=" + value.value + "\n" else "") + Copied(r, true)
    case AtHeader(b, h, r) =>
      Copied(b, true) + (if value.Some? then key + "=" + value.value + "\n\n" else "") + Shown(h) + Copied(r, true)
    case AtEnd(b) => Copied(b, true) + (if value.Some? then "\n" + key + "=" + value.value + "\n" else "")
  }

  predicate AllFit(lines: seq<string>) {
    forall line :: line in lines ==> LineFits(line)
  }

  // --------------------------------------------------------------- one line

  lemma FirstOf(line: string, more: seq<string>)
    requires LineFits(line)
    ensures var t := FileText([line] + more);
            t != "" && Line(t) == line + "\n" && Rest(t) == FileText(more)
  {
    hide LineLength, Find;
    var s := line + "\n";
    assert ([line] + more)[1..] == more;
    assert s[..|s| - 1] == line;
    LineOf(s, FileText(more));
    assert FileText([line] + more) == s + FileText(more);
  }

  // What is decided on the line without its front blanks is what is decided
  // on its entry, and what is kept of it is what is shown.
  lemma LineSeen(line: string, section: string, key: string)
    ensures var sp := SkipLeading(line + "\n");
            && sp == Shown(line) && (sp == "" <==> Blanks(line))
            && (IsHeader(sp) <==> Heads(line)) && (HeaderOf(sp, section) <==> HeaderOf(Trim(line), section))
            && (WriterMatches(sp, key) <==> WriterMatches(Trim(line), key))
  {
    hide Find, Separator, SkipTrailing, SkipLeading, HeaderOf, ReaderMatches, WriterMatches, ValueIn;
    var sp := SkipLeading(line + "\n");
    SkipLeadingStops(line + "\n");
    TrimmedLine(sp, section, key);
    SkipLeadingThenBlank(line, '\n');
    ShownIs(line);
  }

  lemma ShownIs(line: string)
    ensures SkipLeading(line + "\n") == Shown(line) && (Shown(line) == "" <==> Blanks(line))
  {
    var a := LeadingParts(line);
    var m := SkipLeading(line);
    if Blanks(line) {
      assert Blanks(line + "\n");
      LeadingIs(line + "\n", "");
      assert line + "\n" + "" == line + "\n";
    } else {
      NotAllBlank(a, m);
      LeadingIs(a, m + "\n");
      assert line + "\n" == a + (m + "\n");
    }
  }

  lemma NotAllBlank(a: string, m: string)
    requires Blanks(a) && !Blanks(a + m)
    ensures m != ""
  {
    assert m == "" ==> a + m == a;
  }

  // ------------------------------------------------------------ whole files

  lemma {:induction false} RestCopied(lines: seq<string>)
    requires AllFit(lines)
    ensures CopyRest(FileText(lines)) == Copied(lines, true)
  {
    hide LineLength, SkipLeading, Heads, Shown, Blanks, Line, Rest;
    if lines != [] {
      CopyStep(lines);
      RestCopied(lines[1..]);
    }
  }

  lemma CopyStep(lines: seq<string>)
    requires AllFit(lines) && lines != []
    ensures CopyRest(FileText(lines)) == (if Heads(lines[0]) then "\n" else "") + Shown(lines[0])
                                         + CopyRest(FileText(lines[1..]))
  {
    hide LineLength, SkipLeading, Heads, Shown, Blanks, Line, Rest;
    assert lines == [lines[0]] + lines[1..];
    FirstOf(lines[0], lines[1..]);
    LineSeen(lines[0], "", "");
    HeadShows(lines[0]);
  }

  lemma HeadShows(line: string)
    ensures Heads(line) ==> Shown(line) != ""
  {
    hide Trim;
    if Blanks(line) {
      TrimIs(line, "", "");
      assert line + "" + "" == line;
    } else {
      ShownIs(line);
    }
  }

  lemma KeysStep(lines: seq<string>, key: Option<string>, value: Option<string>)
    requires AllFit(lines) && lines != []
    ensures var line, more := lines[0], FileText(lines[1..]);
            RewriteKeys(FileText(lines), key, value) ==
              if Heads(line) then
                (if key.Some? && value.Some? then key.value + "=" + value.value + "\n\n" else "")
                + Shown(line) + CopyRest(more)
              else if key.Some? && WriterMatches(Trim(line), key.value) then
                KeyTextIf(key, value) + CopyRest(more)
              else (if key.Some? then Shown(line) else "") + RewriteKeys(more, key, value)
  {
    hide LineLength, SkipLeading, Heads, Shown, Blanks, Line, Rest, WriterMatches, Trim, CopyRest, KeyTextIf;
    assert lines == [lines[0]] + lines[1..];
    FirstOf(lines[0], lines[1..]);
    LineSeen(lines[0], "", if key.Some? then key.value else "");
  }

  lemma {:induction false} KeysCopied(b: seq<string>, more: seq<string>, key: string, value: Option<string>)
    requires AllFit(b + more) && forall line :: line in b ==> !Heads(line) && !WriterMatches(Trim(line), key)
    ensures RewriteKeys(FileText(b + more), Some(key), value)
            == Copied(b, true) + RewriteKeys(FileText(more), Some(key), value)
    decreases |b|
  {
    hide LineLength, Heads, Shown, Blanks, WriterMatches, Trim, RewriteKeys, LineFits;
    if b == [] {
      assert b + more == more;
    } else {
      assert (b + more)[1..] == b[1..] + more && (b + more)[0] == b[0];
      assert AllFit(b[1..] + more) by { FitsLater(b + more); }
      KeysStep(b + more, Some(key), value);
      KeysCopied(b[1..], more, key, value);
      Assoc("" + Shown(b[0]), Copied(b[1..], true), RewriteKeys(FileText(more), Some(key), value));
    }
  }

  lemma FitsLater(lines: seq<string>)
    requires AllFit(lines) && lines != []
    ensures AllFit(lines[1..])
  {
  }

  lemma FitsParts(a: seq<string>, b: seq<string>)
    requires AllFit(a + b)
    ensures AllFit(a) && AllFit(b)
  {
    forall line | line in a ensures LineFits(line) { assert line in a + b; }
    forall line | line in b ensures LineFits(line) { assert line in a + b; }
  }

  lemma PlainKey(key: string, value: string)
    requires |key| + |value| <= 124
    ensures KeyText(key, value) == key + "=" + value + "\n"
  {
  }

  // The lines behind the header.
  lemma KeysLaid(p: Place, key: string, value: Option<string>)
    requires AllFit(p.Lines()) && p.Is(key) && (value.Some? ==> |key| + |value.value| <= 124)
    ensures RewriteKeys(FileText(p.Lines()), Some(key), value) == Laid(p, key, value)
  {
    hide LineLength, Heads, Shown, Blanks, WriterMatches, Trim, RewriteKeys, LineFits, KeyText, CopyRest, Copied,
         AllFit;
    match p
    case AtLine(b, line, r) => LineLaid(b, line, r, key, value);
    case AtHeader(b, header, r) => HeaderLaid(b, header, r, key, value);
    case AtEnd(b) => EndLaid(b, key, value);
  }

  lemma LineLaid(b: seq<string>, line: string, r: seq<string>, key: string, value: Option<string>)
    requires AllFit(b + [line] + r) && AtLine(b, line, r).Is(key) && (value.Some? ==> |key| + |value.value| <= 124)
    ensures RewriteKeys(FileText(b + [line] + r), Some(key), value) == Laid(AtLine(b, line, r), key, value)
  {
    hide LineLength, Heads, Shown, Blanks, WriterMatches, Trim, RewriteKeys, KeyText, CopyRest, Copied, AllFit;
    if value.Some? { PlainKey(key, value.value); }
    Grouped(b, line, r);
    FitsParts(b, [line] + r);
    FitsParts([line], r);
    KeysCopied(b, [line] + r, key, value);
    KeysStep([line] + r, Some(key), value);
    RestCopied(r);
    Assoc(Copied(b, true), KeyTextIf(Some(key), value), Copied(r, true));
  }

  lemma Grouped(b: seq<string>, line: string, r: seq<string>)
    ensures b + [line] + r == b + ([line] + r) && ([line] + r)[1..] == r && ([line] + r)[0] == line
  {
  }

  lemma HeaderLaid(b: seq<string>, h: string, r: seq<string>, key: string, value: Option<string>)
    requires AllFit(b + [h] + r) && AtHeader(b, h, r).Is(key)
    ensures RewriteKeys(FileText(b + [h] + r), Some(key), value) == Laid(AtHeader(b, h, r), key, value)
  {
    hide LineLength, Heads, Shown, Blanks, WriterMatches, Trim, RewriteKeys, KeyText, CopyRest, Copied, AllFit;
    Grouped(b, h, r);
    FitsParts(b, [h] + r);
    FitsParts([h], r);
    KeysCopied(b, [h] + r, key, value);
    KeysStep([h] + r, Some(key), value);
    RestCopied(r);
    var added := if value.Some? then key + "=" + value.value + "\n\n" else "";
    Assoc(added, Shown(h), Copied(r, true));
    Assoc(Copied(b, true), added, Shown(h) + Copied(r, true));
    Assoc(Copied(b, true) + added, Shown(h), Copied(r, true));
  }

  lemma EndLaid(b: seq<string>, key: string, value: Option<string>)
    requires AllFit(b) && AtEnd(b).Is(key) && (value.Some? ==> |key| + |value.value| <= 124)
    ensures RewriteKeys(FileText(b), Some(key), value) == Laid(AtEnd(b), key, value)
  {
    hide LineLength, Heads, Shown, Blanks, WriterMatches, Trim, RewriteKeys, KeyText, CopyRest, Copied, AllFit;
    if value.Some? { PlainKey(key, value.value); }
    assert b + [] == b;
    KeysCopied(b, [], key, value);
    KeysEnd(key, value);
  }

  lemma KeysEnd(key: string, value: Option<string>)
    ensures RewriteKeys(FileText([]), Some(key), value) == if value.Some? then "\n" + KeyText(key, value.value) else ""
  {
  }

  // No line is a header of the section.
  predicate Without(lines: seq<string>, section: string) {
    forall line :: line in lines ==> !HeaderOf(Trim(line), section)
  }

  lemma FromStep(lines: seq<string>, section: string, key: Option<string>, value: Option<string>, after: bool)
    requires AllFit(lines) && lines != []
    ensures var line, more := lines[0], FileText(lines[1..]);
            var found := HeaderOf(Trim(line), section);
            var shown := (if Heads(line) && after then "\n" else "") + Shown(line);
            RewriteFrom(FileText(lines), section, key, value, after) ==
              if found then (if key.Some? then shown else "") + RewriteKeys(more, key, value)
              else shown + RewriteFrom(more, section, key, value, after || !Blanks(line))
  {
    hide LineLength, SkipLeading, Heads, Shown, Blanks, Line, Rest, HeaderOf, Trim, RewriteKeys;
    var line := lines[0];
    assert lines == [line] + lines[1..];
    FirstOf(line, lines[1..]);
    LineSeen(line, section, "");
    HeadShows(line);
  }

  // Up to the header of the section, and behind it.
  lemma {:induction false} FromCopied(a: seq<string>, h: string, more: seq<string>, section: string, key: string,
      value: Option<string>, after: bool)
    requires AllFit(a + [h] + more) && Without(a, section) && HeaderOf(Trim(h), section)
    ensures RewriteFrom(FileText(a + [h] + more), section, Some(key), value, after)
            == Copied(a + [h], after) + RewriteKeys(FileText(more), Some(key), value)
    decreases |a|
  {
    hide LineLength, Heads, Shown, Blanks, HeaderOf, Trim, RewriteKeys, RewriteFrom, LineFits;
    var lines := a + [h] + more;
    FromStep(lines, section, Some(key), value, after);
    if a == [] {
      assert lines == [h] + more && lines[1..] == more && a + [h] == [h];
      OneCopied(h, after);
    } else {
      var b := a[1..];
      assert lines[1..] == b + [h] + more && lines[0] == a[0] && (a + [h])[1..] == b + [h];
      FitsLater(lines);
      FromCopied(b, h, more, section, key, value, after || !Blanks(a[0]));
      var shown := (if Heads(a[0]) && after then "\n" else "") + Shown(a[0]);
      Assoc(shown, Copied(b + [h], after || !Blanks(a[0])), RewriteKeys(FileText(more), Some(key), value));
    }
  }

  lemma OneCopied(h: string, after: bool)
    ensures Copied([h], after) == (if Heads(h) && after then "\n" else "") + Shown(h)
  {
    hide Heads, Shown;
    assert [h][1..] == [];
  }

  // A put, or the erasure of a key, below the header of its section, or for no
  // section at the top of the file.
  lemma PutLaid(a: seq<string>, h: string, p: Place, section: string, key: string, value: Option<string>)
    requires AllFit(a + [h] + p.Lines()) && Without(a, section) && HeaderOf(Trim(h), section) && section != ""
    requires p.Is(key) && (value.Some? ==> |key| + |value.value| <= 124)
    ensures var file := Some(FileText(a + [h] + p.Lines()));
            value.None? || GetIn(file, section, key) != value ==>
              Put(file, section, Some(key), value) == Some(Copied(a + [h], false) + Laid(p, key, value))
  {
    hide LineLength, Heads, Shown, Blanks, HeaderOf, Trim, RewriteKeys, RewriteFrom, LineFits, Copied, Laid, Reads,
         Entries;
    FromCopied(a, h, p.Lines(), section, key, value, false);
    FitsParts(a + [h], p.Lines());
    KeysLaid(p, key, value);
    SavedWhole(Some(FileText(a + [h] + p.Lines())), section, key, value);
  }

  lemma SavedWhole(file: Option<string>, section: string, key: string, value: Option<string>)
    requires file.Some? && (value.Some? ==> |key| + |value.value| <= 124)
    ensures value.Some? && GetIn(file, section, key) != value ==> !NothingToDo(file, section, Some(key), value)
  {
    hide Reads, Entries;
    if value.Some? { NothingToDoIs(file, section, key, value.value); }
  }

  lemma TopLaid(p: Place, key: string, value: Option<string>)
    requires AllFit(p.Lines()) && p.Is(key) && (value.Some? ==> |key| + |value.value| <= 124)
    ensures var file := Some(FileText(p.Lines()));
            value.None? || GetIn(file, "", key) != value ==>
              Put(file, "", Some(key), value) == Some(Laid(p, key, value))
  {
    hide LineLength, Heads, Shown, Blanks, HeaderOf, Trim, RewriteKeys, RewriteFrom, LineFits, Copied, Laid, Reads,
         Entries;
    KeysLaid(p, key, value);
    SavedWhole(Some(FileText(p.Lines())), "", key, value);
  }

  function SectionLine(section: string, key: string, value: string): string {
    "[" + section + "]\n" + (key + "=" + value + "\n")
  }

  // Where the section is missing it is added at the end; where the file is,
  // the file is made.
  lemma {:induction false} NewSectionLaid(lines: seq<string>, section: string, key: string, value: string, after: bool)
    requires AllFit(lines) && Without(lines, section) && 0 < |section| <= 123 && |key| + |value| <= 124
    ensures RewriteFrom(FileText(lines), section, Some(key), Some(value), after)
            == Copied(lines, after) + ("\n" + SectionLine(section, key, value))
    decreases |lines|
  {
    hide LineLength, Heads, Shown, Blanks, HeaderOf, Trim, RewriteKeys, RewriteFrom, LineFits, SectionLine;
    if lines == [] {
      NewSectionEnd(section, key, value, after);
    } else {
      FitsLater(lines);
      FromStep(lines, section, Some(key), Some(value), after);
      NewSectionLaid(lines[1..], section, key, value, after || !Blanks(lines[0]));
      var shown := (if Heads(lines[0]) && after then "\n" else "") + Shown(lines[0]);
      Assoc(shown, Copied(lines[1..], after || !Blanks(lines[0])), "\n" + SectionLine(section, key, value));
    }
  }

  lemma NewSectionEnd(section: string, key: string, value: string, after: bool)
    requires 0 < |section| <= 123 && |key| + |value| <= 124
    ensures RewriteFrom(FileText([]), section, Some(key), Some(value), after)
            == "\n" + SectionLine(section, key, value)
    ensures SectionText(section) + KeyText(key, value) == SectionLine(section, key, value)
  {
    hide KeyText;
    PlainKey(key, value);
    assert SectionText(section) == "[" + section + "]\n";
    Assoc("\n", SectionText(section), KeyText(key, value));
  }

  lemma PutSection(lines: seq<string>, section: string, key: string, value: string)
    requires AllFit(lines) && Without(lines, section) && 0 < |section| <= 123 && |key| + |value| <= 124
    ensures Put(None, section, Some(key), Some(value)) == Some(SectionLine(section, key, value))
    ensures GetIn(Some(FileText(lines)), section, key) != Some(value) ==>
              Put(Some(FileText(lines)), section, Some(key), Some(value))
              == Some(Copied(lines, false) + ("\n" + SectionLine(section, key, value)))
  {
    hide LineLength, Heads, Shown, Blanks, HeaderOf, Trim, RewriteKeys, RewriteFrom, LineFits, Copied, Reads, Entries,
         KeyText, SectionLine;
    NewSectionEnd(section, key, value, false);
    NewSectionLaid(lines, section, key, value, false);
    SavedWhole(Some(FileText(lines)), section, key, Some(value));
  }

  // An erased section goes with its header and its lines; the header after it
  // gets no empty line in front.
  lemma {:induction false} ErasedLines(b: seq<string>, more: seq<string>)
    requires AllFit(b + more) && forall line :: line in b ==> !Heads(line)
    ensures RewriteKeys(FileText(b + more), None, None) == RewriteKeys(FileText(more), None, None)
    decreases |b|
  {
    hide LineLength, Heads, Shown, Blanks, WriterMatches, Trim, RewriteKeys, LineFits;
    if b == [] {
      assert b + more == more;
    } else {
      assert (b + more)[1..] == b[1..] + more && (b + more)[0] == b[0];
      FitsLater(b + more);
      KeysStep(b + more, None, None);
      ErasedLines(b[1..], more);
    }
  }

  lemma {:induction false} FromErased(a: seq<string>, h: string, more: seq<string>, section: string, after: bool)
    requires AllFit(a + [h] + more) && Without(a, section) && HeaderOf(Trim(h), section)
    ensures RewriteFrom(FileText(a + [h] + more), section, None, None, after)
            == Copied(a, after) + RewriteKeys(FileText(more), None, None)
    decreases |a|
  {
    hide LineLength, Heads, Shown, Blanks, HeaderOf, Trim, RewriteKeys, RewriteFrom, LineFits;
    var lines := a + [h] + more;
    FromStep(lines, section, None, None, after);
    if a == [] {
      assert lines == [h] + more && lines[1..] == more;
    } else {
      var b := a[1..];
      assert lines[1..] == b + [h] + more && lines[0] == a[0];
      FitsLater(lines);
      FromErased(b, h, more, section, after || !Blanks(a[0]));
      var shown := (if Heads(a[0]) && after then "\n" else "") + Shown(a[0]);
      Assoc(shown, Copied(b, after || !Blanks(a[0])), RewriteKeys(FileText(more), None, None));
    }
  }

  lemma EraseSection(a: seq<string>, h: string, b: seq<string>, rest: seq<string>, section: string)
    requires AllFit(a + [h] + (b + rest)) && Without(a, section) && HeaderOf(Trim(h), section) && section != ""
    requires (forall line :: line in b ==> !Heads(line)) && (rest != [] ==> Heads(rest[0]))
    ensures Put(Some(FileText(a + [h] + (b + rest))), section, None, None)
            == Some(Copied(a, false) + if rest == [] then "" else Shown(rest[0]) + Copied(rest[1..], true))
  {
    hide LineLength, Heads, Shown, Blanks, HeaderOf, Trim, RewriteKeys, RewriteFrom, LineFits, CopyRest;
    FromErased(a, h, b + rest, section, false);
    FitsParts(a + [h], b + rest);
    ErasedLines(b, rest);
    FitsParts(b, rest);
    if rest == [] {
      NothingErased();
    } else {
      KeysStep(rest, None, None);
      FitsLater(rest);
      RestCopied(rest[1..]);
      assert "" + Shown(rest[0]) == Shown(rest[0]);
    }
  }

  lemma NothingErased()
    ensures RewriteKeys(FileText([]), None, None) == ""
  {
  }

  // ------------------------------------------------------- the buffer's size

  // 126 characters and a line feed are a line; from 127 on a line comes in pieces.
  lemma LongLines(line: string, more: string)
    requires '\n' !in line
    ensures LineLength(line + "\n" + more) == if |line| <= 126 then |line| + 1 else 127
  {
    hide Find;
    var t := line + "\n" + more;
    assert t[..|line|] == line;
    FindIs(t, '\n', |line|);
  }

  // A written line holds 124 characters beside its '=': what is over is cut
  // off the value, and of a longer key nothing but 124 characters are left.
  lemma LongKeys(key: string, value: string)
    ensures |key| <= 124 < |key| + |value| ==> KeyText(key, value) == key + "=" + value[..124 - |key|] + "\n"
    ensures |key| > 124 ==> KeyText(key, value) == key[..124] + "=" + "\n"
    ensures |key| > 123 ==> SectionText(key) == "[" + key[..123] + "]\n"
  {
    assert |key| > 124 ==> value[..0] == "" && Cut(value, 0) == "";
  }
}
