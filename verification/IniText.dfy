// The text of a configuration file as ini.c takes it apart: lines as fgets
// delivers them, blanks, separators, and the reading of a key in a section.
module IniText {
  import opened Wrappers

  const BUFFER_SIZE: nat := 128

  // Plain char is signed: a byte of 0x80 or more compares below ' '.
  predicate Blank(c: char) {
    c <= ' ' || c >= 128 as char
  }

  function SkipLeading(s: string): (r: string) {
    if s == "" || !Blank(s[0]) then s else SkipLeading(s[1..])
  }

  function SkipTrailing(s: string): (r: string) {
    if s == "" || !Blank(s[|s| - 1]) then s else SkipTrailing(s[..|s| - 1])
  }

  function Trim(s: string): string {
    SkipTrailing(SkipLeading(s))
  }

  // The place of the first c, or the end of the text.
  function Find(s: string, c: char): (i: nat)
    ensures i <= |s|
    ensures i < |s| ==> s[i] == c
    ensures c !in s[..i]
  {
    if s == "" || s[0] == c then 0
    else
      var i := Find(s[1..], c) + 1;
      assert s[..i] == [s[0]] + s[1..][..i - 1];
      i
  }

  // --------------------------------------------------------------- one line

  predicate IsHeader(s: string) {
    s != "" && s[0] == '['
  }

  predicate HeaderOf(s: string, section: string) {
    IsHeader(s) && Find(s, ']') < |s| && s[1..Find(s, ']')] == section
  }

  predicate IsComment(s: string) {
    s != "" && (s[0] == ';' || s[0] == '#')
  }

  // The separator: the first '=', or in a line without one the first ':'.
  function Separator(s: string): (i: nat)
    ensures i <= |s|
    ensures i < |s| ==> s[i] == '=' || s[i] == ':'
  {
    if Find(s, '=') < |s| then Find(s, '=') else Find(s, ':')
  }

  // The reader drops blanks before the separator, the writer does not.
  predicate ReaderMatches(s: string, key: string) {
    !IsComment(s) && Separator(s) < |s| && SkipTrailing(s[..Separator(s)]) == key
  }

  predicate WriterMatches(s: string, key: string) {
    Separator(s) < |s| && s[..Separator(s)] == key
  }

  function Unquote(s: string): string {
    if s != "" && s[0] == '"' && s[|s| - 1] == '"' then
      if |s| == 1 then "" else s[1..|s| - 1]
    else s
  }

  function ValueIn(s: string): string
    requires Separator(s) < |s|
  {
    Unquote(Trim(s[Separator(s) + 1..]))
  }

  // ------------------------------------------------------------ a whole file

  // The line fgets delivers: up to a line feed, and no longer than the buffer.
  function LineLength(text: string): (n: nat)
    requires text != ""
    ensures 1 <= n <= |text|
  {
    var i := Find(text, '\n') + 1;
    if i <= BUFFER_SIZE - 1 && i <= |text| then i
    else if |text| < BUFFER_SIZE then |text| else BUFFER_SIZE - 1
  }

  function Entry(line: string): (r: seq<string>)
  {
    if Trim(line) == "" then [] else [Trim(line)]
  }

  // The lines that are not blank, each without the blanks around it: all that
  // a reader sees of a file.
  function Entries(text: string): seq<string> {
    if text == "" then []
    else Entry(text[..LineLength(text)]) + Entries(text[LineLength(text)..])
  }

  // Every line, with its terminator, goes into the buffer.
  predicate Fits(text: string) {
    text == "" ||
    (var n := LineLength(text);
     && (text[n - 1] == '\n' || (n == |text| && n < BUFFER_SIZE - 1))
     && Fits(text[n..]))
  }

  // What follows the first header of a section.
  function After(es: seq<string>, section: string): Option<seq<string>> {
    if es == [] then None
    else if HeaderOf(es[0], section) then Some(es[1..])
    else After(es[1..], section)
  }

  // A key's value above the next header.
  function Scan(es: seq<string>, key: string): Option<string> {
    if es == [] || IsHeader(es[0]) then None
    else if ReaderMatches(es[0], key) then Some(ValueIn(es[0]))
    else Scan(es[1..], key)
  }

  // The meaning of a file: the value of a key in a section, where the section
  // of no name is what stands above the first header.
  function Reads(es: seq<string>, section: string, key: string): Option<string> {
    if section == "" then Scan(es, key)
    else
      match After(es, section)
      case None => None
      case Some(rest) => Scan(rest, key)
  }

  // ------------------------------------------------------------------ trims

  lemma {:induction false} SkipLeadingStops(s: string)
    ensures SkipLeading(s) != "" ==> !Blank(SkipLeading(s)[0])
    ensures SkipLeading(SkipLeading(s)) == SkipLeading(s)
    ensures |SkipLeading(s)| <= |s| && SkipLeading(s) == s[|s| - |SkipLeading(s)|..]
  {
    if s != "" && Blank(s[0]) {
      SkipLeadingStops(s[1..]);
    }
  }

  lemma {:induction false} SkipTrailingStops(s: string)
    ensures SkipTrailing(s) != "" ==> !Blank(SkipTrailing(s)[|SkipTrailing(s)| - 1])
    ensures |SkipTrailing(s)| <= |s| && SkipTrailing(s) == s[..|SkipTrailing(s)|]
    ensures forall i :: |SkipTrailing(s)| <= i < |s| ==> Blank(s[i])
  {
    if s != "" && Blank(s[|s| - 1]) {
      SkipTrailingStops(s[..|s| - 1]);
    }
  }

  // Trailing blanks of the whole are trailing blanks of the rest after a
  // character that is none.
  lemma {:induction false} SkipTrailingOfSuffix(s: string, i: nat)
    requires i < |s| && !Blank(s[i])
    ensures i < |SkipTrailing(s)| && SkipTrailing(s[i + 1..]) == SkipTrailing(s)[i + 1..]
  {
    if Blank(s[|s| - 1]) {
      SkipTrailingOfSuffix(s[..|s| - 1], i);
      assert s[i + 1..][..|s| - i - 2] == s[..|s| - 1][i + 1..];
    } else if i + 1 < |s| {
      assert s[i + 1..][|s[i + 1..]| - 1] == s[|s| - 1];
    }
  }

  lemma {:induction false} SkipTrailingBlank(s: string, c: char)
    requires Blank(c)
    ensures SkipTrailing(s + [c]) == SkipTrailing(s)
  {
    assert (s + [c])[..|s|] == s;
  }

  lemma {:induction false} SkipLeadingThenBlank(s: string, c: char)
    requires Blank(c)
    ensures Trim(s + [c]) == Trim(s)
  {
    if s == "" {
      assert s + [c] == [c] && [c][1..] == "";
    } else if Blank(s[0]) {
      assert (s + [c])[1..] == s[1..] + [c];
      SkipLeadingThenBlank(s[1..], c);
    } else {
      SkipTrailingBlank(s, c);
    }
  }

  // ------------------------------------ a line seen with its ends trimmed off

  lemma FindIs(s: string, c: char, i: nat)
    requires i <= |s| && c !in s[..i] && (i < |s| ==> s[i] == c)
    ensures Find(s, c) == i
  {
    var j := Find(s, c);
    assert forall k :: 0 <= k < i ==> s[..i][k] != c;
    assert forall k :: 0 <= k < j ==> s[..j][k] != c;
  }

  lemma FindAbsent(s: string, c: char)
    ensures Find(s, c) == |s| <==> c !in s
  {
    if Find(s, c) == |s| { assert s[..|s|] == s; }
  }

  lemma FindInPrefix(s: string, c: char, n: nat)
    requires n <= |s| && !Blank(c) && forall i :: n <= i < |s| ==> Blank(s[i])
    ensures Find(s, c) < |s| <==> Find(s[..n], c) < n
    ensures Find(s, c) < |s| ==> Find(s, c) == Find(s[..n], c)
  {
    var i := Find(s[..n], c);
    FindAbsent(s, c);
    FindAbsent(s[..n], c);
    if i < n {
      assert s[..i] == s[..n][..i];
      FindIs(s, c, i);
    } else {
      assert forall k :: 0 <= k < n ==> s[..n][k] == s[k];
    }
  }

  // What the code decides on a line with its trailing blanks still on it is
  // what it decides on the entry.
  lemma TrimmedLine(s: string, section: string, key: string)
    requires SkipLeading(s) == s
    ensures var e := SkipTrailing(s);
            && (IsHeader(s) <==> IsHeader(e)) && (HeaderOf(s, section) <==> HeaderOf(e, section))
            && (Separator(s) < |s| <==> Separator(e) < |e|)
            && (Separator(s) < |s| ==> Separator(s) == Separator(e) && ValueIn(s) == ValueIn(e))
            && (ReaderMatches(s, key) <==> ReaderMatches(e, key))
            && (WriterMatches(s, key) <==> WriterMatches(e, key))
  {
    hide SkipTrailing, SkipLeading, Find, ValueIn;
    var e := SkipTrailing(s);
    SkipTrailingStops(s);
    TrimmedFirst(s);
    TrimmedHeader(s, section);
    TrimmedSeparator(s);
    if Separator(s) < |s| {
      assert s[..Separator(s)] == e[..Separator(s)];
      TrimmedValue(s);
    }
  }

  lemma TrimmedFirst(s: string)
    requires SkipLeading(s) == s
    ensures s == "" <==> SkipTrailing(s) == ""
    ensures s != "" ==> SkipTrailing(s)[0] == s[0] && !Blank(s[0])
  {
    SkipTrailingStops(s);
    SkipLeadingStops(s);
    if s != "" { SkipTrailingOfSuffix(s, 0); }
  }

  lemma TrimmedHeader(s: string, section: string)
    requires SkipLeading(s) == s
    ensures HeaderOf(s, section) <==> HeaderOf(SkipTrailing(s), section)
  {
    hide SkipTrailing, SkipLeading, Find;
    var e := SkipTrailing(s);
    SkipTrailingStops(s);
    TrimmedFirst(s);
    FindInPrefix(s, ']', |e|);
    var i := Find(s, ']');
    if IsHeader(s) && i < |s| {
      assert i >= 1 && s[1..i] == e[1..i];
    }
  }

  lemma TrimmedSeparator(s: string)
    requires SkipLeading(s) == s
    ensures Separator(s) < |s| <==> Separator(SkipTrailing(s)) < |SkipTrailing(s)|
    ensures Separator(s) < |s| ==> Separator(s) == Separator(SkipTrailing(s))
  {
    hide SkipTrailing, SkipLeading, Find;
    var e := SkipTrailing(s);
    SkipTrailingStops(s);
    FindInPrefix(s, '=', |e|);
    FindInPrefix(s, ':', |e|);
  }

  lemma TrimmedValue(s: string)
    requires SkipLeading(s) == s && Separator(s) < |s|
    ensures Separator(SkipTrailing(s)) < |SkipTrailing(s)| && ValueIn(s) == ValueIn(SkipTrailing(s))
  {
    hide SkipTrailing, SkipLeading, Find;
    TrimmedSeparator(s);
    TrimOfSuffix(s, Separator(s));
  }

  lemma TrimOfSuffix(s: string, i: nat)
    requires i < |s| && !Blank(s[i])
    ensures i < |SkipTrailing(s)| && Trim(s[i + 1..]) == Trim(SkipTrailing(s)[i + 1..])
  {
    SkipTrailingOfSuffix(s, i);
    TrimOfTrimmed(s[i + 1..]);
  }

  lemma {:induction false} TrimOfTrimmed(s: string)
    ensures Trim(SkipTrailing(s)) == Trim(s)
    decreases |s|
  {
    if s != "" && Blank(s[|s| - 1]) {
      TrimOfTrimmed(s[..|s| - 1]);
      assert s == s[..|s| - 1] + [s[|s| - 1]];
      SkipLeadingThenBlank(s[..|s| - 1], s[|s| - 1]);
    }
  }

  // ------------------------------------------------------- text put together

  // A line, or the last one without its terminator.
  predicate Piece(s: string) {
    && 0 < |s| <= BUFFER_SIZE - 1
    && '\n' !in s[..|s| - 1]
    && (s[|s| - 1] == '\n' || |s| < BUFFER_SIZE - 1)
  }

  predicate Follows(s: string, more: string) {
    s != "" && (s[|s| - 1] == '\n' || more == "" || more[0] == '\n')
  }

  lemma LineOf(s: string, more: string)
    requires Piece(s) && s[|s| - 1] == '\n'
    ensures LineLength(s + more) == |s|
  {
    var t := s + more;
    assert t[..|s| - 1] == s[..|s| - 1];
    FindIs(t, '\n', |s| - 1);
  }

  lemma LastLine(s: string)
    requires Piece(s) && s[|s| - 1] != '\n'
    ensures LineLength(s) == |s|
  {
    assert s == s[..|s| - 1] + [s[|s| - 1]];
    FindAbsent(s, '\n');
  }

  lemma FirstLine(line: string, more: string)
    requires line != "" && LineLength(line + more) == |line|
    ensures Entries(line + more) == Entry(line) + Entries(more)
    ensures Fits(line + more) <==>
              (line[|line| - 1] == '\n' || (more == "" && |line| < BUFFER_SIZE - 1)) && Fits(more)
  {
    hide LineLength, Entry;
    var t := line + more;
    assert t[..|line|] == line && t[|line|..] == more;
  }

  // Writing a line in front of a text puts its entry in front.
  lemma EntriesOf(s: string, more: string)
    requires Piece(s) && Follows(s, more) && Fits(more)
    ensures Entries(s + more) == Entry(s) + Entries(more) && Fits(s + more)
  {
    hide LineLength, Find, Entry, Entries;
    if s[|s| - 1] == '\n' {
      LineOf(s, more);
      FirstLine(s, more);
    } else if more == "" {
      assert s + more == s;
      LastLine(s);
      FirstLine(s, more);
    } else {
      assert more == "\n" + more[1..];
      Breaks(s, more[1..]);
      assert s + ("\n" + more[1..]) == s + "\n" + more[1..];
    }
  }

  // The last line of a text, ended by the line feed written after it.
  lemma Breaks(s: string, more: string)
    requires Piece(s) && s[|s| - 1] != '\n' && Fits("\n" + more)
    ensures Entries(s + "\n" + more) == Entry(s) + Entries("\n" + more) && Fits(s + "\n" + more)
  {
    hide LineLength, Find, Trim, Entries, Fits, Piece;
    var line := s + "\n";
    EndedLine(s);
    LineOf(line, more);
    FirstLine(line, more);
    EmptyLine();
    LineOf("\n", more);
    FirstLine("\n", more);
  }

  lemma EndedLine(s: string)
    requires Piece(s) && s[|s| - 1] != '\n'
    ensures Piece(s + "\n") && Trim(s + "\n") == Trim(s)
  {
    hide Trim;
    assert (s + "\n")[..|s|] == s;
    assert s == s[..|s| - 1] + [s[|s| - 1]];
    SkipLeadingThenBlank(s, '\n');
  }

  lemma EmptyLine()
    ensures Piece("\n") && Trim("\n") == ""
  {
    SkipLeadingThenBlank("", '\n');
    assert "" + "\n" == "\n";
  }
}
