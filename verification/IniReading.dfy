// What a configuration file says, on the pieces of its lines: the reader finds
// the first line for the key under the first header of the section.
module IniReading {
  import opened Wrappers
  import opened IniText
  import opened Ini

  // Control characters, the space, and bytes from 0x80 on.
  predicate Blanks(s: string) {
    forall i :: 0 <= i < |s| ==> s[i] <= ' ' || s[i] >= 128 as char
  }

  // No blank at either end.
  predicate Tight(s: string) {
    s != "" ==> ' ' < s[0] < 128 as char && ' ' < s[|s| - 1] < 128 as char
  }

  // What a written value stands for: quotes around it are taken off.
  predicate Bare(v: string, w: string) {
    if |v| >= 2 && v[0] == '"' && v[|v| - 1] == '"' then v == "\"" + w + "\""
    else if v == "\"" then w == "" else w == v
  }

  // A line for a key: the key, a '=', or without one a ':', and the value,
  // with blanks around each.
  predicate Spells(line: string, a: string, key: string, b: string, mark: string, c: string, v: string, d: string) {
    && line == a + key + b + mark + c + v + d
    && Blanks(a) && Blanks(b) && Blanks(c) && Blanks(d) && Tight(key) && Tight(v)
    && (mark == "=" || (mark == ":" && '=' !in key && '=' !in v && ':' !in key))
    && '=' !in key && (key != "" ==> key[0] !in {'[', ';', '#'})
  }

  ghost predicate KeyLine(line: string, key: string, w: string) {
    exists a, b, mark, c, v, d :: Spells(line, a, key, b, mark, c, v, d) && Bare(v, w)
  }

  predicate Opens(line: string, a: string, t: string) {
    Blanks(a) && line == a + "[" + t
  }

  ghost predicate AnyHeader(line: string) {
    exists a, t :: Opens(line, a, t)
  }

  ghost predicate HeaderLine(line: string, section: string) {
    ']' !in section && exists a, t :: Opens(line, a, section + "]" + t)
  }

  // ------------------------------------------------------------ blank ends

  lemma {:induction false} LeadingIs(a: string, m: string)
    requires Blanks(a) && (m == "" || ' ' < m[0] < 128 as char)
    ensures SkipLeading(a + m) == m
  {
    if a == "" {
      assert a + m == m;
    } else {
      assert (a + m)[1..] == a[1..] + m;
      LeadingIs(a[1..], m);
    }
  }

  lemma {:induction false} TrailingIs(m: string, d: string)
    requires Blanks(d) && (m == "" || ' ' < m[|m| - 1] < 128 as char)
    ensures SkipTrailing(m + d) == m
  {
    if d == "" {
      assert m + d == m;
    } else {
      assert (m + d)[..|m + d| - 1] == m + d[..|d| - 1];
      TrailingIs(m, d[..|d| - 1]);
    }
  }

  lemma TrimIs(a: string, m: string, d: string)
    requires Blanks(a) && Blanks(d) && Tight(m)
    ensures Trim(a + m + d) == m
  {
    if m == "" {
      assert a + m + d == (a + d) + "";
      LeadingIs(a + d, "");
    } else {
      assert a + m + d == a + (m + d);
      LeadingIs(a, m + d);
      TrailingIs(m, d);
    }
  }

  // Every text has such ends.
  lemma {:induction false} LeadingParts(s: string) returns (a: string)
    ensures Blanks(a) && s == a + SkipLeading(s)
    ensures SkipLeading(s) != "" ==> ' ' < SkipLeading(s)[0] < 128 as char
  {
    a := "";
    if s != "" && Blank(s[0]) {
      a := LeadingParts(s[1..]);
      a := [s[0]] + a;
      assert s == [s[0]] + s[1..];
    }
  }

  lemma TrailingParts(s: string) returns (d: string)
    ensures Blanks(d) && s == SkipTrailing(s) + d
    ensures SkipTrailing(s) != "" ==> ' ' < SkipTrailing(s)[|SkipTrailing(s)| - 1] < 128 as char
  {
    SkipTrailingStops(s);
    d := s[|SkipTrailing(s)|..];
  }

  lemma TrimParts(s: string) returns (a: string, d: string)
    ensures Blanks(a) && Blanks(d) && Tight(Trim(s)) && s == a + Trim(s) + d
  {
    a := LeadingParts(s);
    d := TrailingParts(SkipLeading(s));
    var e := Trim(s);
    if e != "" {
      assert e[0] == SkipLeading(s)[0];
    }
  }

  // -------------------------------------------------------------- one line

  lemma UnquoteIs(v: string, w: string)
    ensures Bare(v, w) <==> Unquote(v) == w
  {
    if |v| >= 2 && v[0] == '"' && v[|v| - 1] == '"' {
      assert v == "\"" + v[1..|v| - 1] + "\"";
      assert ("\"" + w + "\"")[1..|w| + 1] == w;
    }
  }

  // The key with the blanks after it, and the value with the blanks before it,
  // where there is a key and a value.
  function Before(key: string, b: string): string {
    if key == "" then "" else key + b
  }

  function Behind(c: string, v: string): string {
    if v == "" then "" else c + v
  }

  lemma BeforeIs(key: string, b: string)
    requires Tight(key) && Blanks(b)
    ensures SkipTrailing(Before(key, b)) == key
    ensures forall x :: x in Before(key, b) ==> x in key || Blank(x)
  {
    TrailingIs(key, if key == "" then "" else b);
    assert "" + "" == "";
  }

  lemma BehindIs(c: string, v: string)
    requires Tight(v) && Blanks(c)
    ensures Trim(Behind(c, v)) == v
    ensures forall x :: x in Behind(c, v) ==> x in v || Blank(x)
  {
    TrimIs(if v == "" then "" else c, v, "");
    assert c + v + "" == c + v && "" + "" + "" == "";
  }

  lemma SpelledTrim(line: string, a: string, key: string, b: string, mark: string, c: string, v: string, d: string)
    requires Spells(line, a, key, b, mark, c, v, d)
    ensures Trim(line) == Before(key, b) + mark + Behind(c, v)
  {
    hide Trim, Before, Behind;
    var p, q := Before(key, b), Behind(c, v);
    var lead := LeadOf(a, key, b);
    var tail := TailOf(c, v, d);
    assert line == (a + key + b) + mark + (c + v + d) == (lead + p) + mark + (q + tail);
    assert line == lead + (p + mark + q) + tail;
    EndsOf(key, b, mark, c, v);
    TrimIs(lead, p + mark + q, tail);
  }

  lemma LeadOf(a: string, key: string, b: string) returns (lead: string)
    requires Blanks(a) && Blanks(b)
    ensures Blanks(lead) && a + key + b == lead + Before(key, b)
  {
    lead := if key == "" then a + b else a;
  }

  lemma TailOf(c: string, v: string, d: string) returns (tail: string)
    requires Blanks(c) && Blanks(d)
    ensures Blanks(tail) && c + v + d == Behind(c, v) + tail
  {
    tail := if v == "" then c + d else d;
  }

  lemma EndsOf(key: string, b: string, mark: string, c: string, v: string)
    requires Tight(key) && Tight(v) && (mark == "=" || mark == ":")
    ensures Tight(Before(key, b) + mark + Behind(c, v))
  {
    var e := Before(key, b) + mark + Behind(c, v);
    assert e[0] == if key == "" then mark[0] else key[0];
    assert e[|e| - 1] == if v == "" then mark[0] else v[|v| - 1];
  }

  lemma SpelledSeparator(p: string, mark: string, q: string)
    requires mark == "=" || (mark == ":" && '=' !in p && '=' !in q && ':' !in p)
    requires '=' !in p
    ensures Separator(p + mark + q) == |p|
  {
    var e := p + mark + q;
    assert e[..|p|] == p && e[|p|] == mark[0];
    if mark == "=" {
      FindIs(e, '=', |p|);
    } else {
      FindIs(e, ':', |p|);
      FindAbsent(e, '=');
    }
  }

  lemma SpelledEntry(line: string, a: string, key: string, b: string, mark: string, c: string, v: string, d: string)
    requires Spells(line, a, key, b, mark, c, v, d)
    ensures var e := Trim(line);
            e != "" && !IsHeader(e) && !IsComment(e) && ReaderMatches(e, key) && ValueIn(e) == Unquote(v)
  {
    hide Unquote, SkipLeading, SkipTrailing, Trim, Find, Before, Behind;
    var p, q := Before(key, b), Behind(c, v);
    var e := p + mark + q;
    SpelledTrim(line, a, key, b, mark, c, v, d);
    BeforeIs(key, b);
    BehindIs(c, v);
    FirstIs(key, b);
    assert !Blank('=') && !Blank(':');
    hide Blank;
    SpelledSeparator(p, mark, q);
    assert e[..|p|] == p && e[|p| + 1..] == q;
    assert e[0] == if p == "" then mark[0] else p[0];
  }

  lemma FirstIs(key: string, b: string)
    ensures Before(key, b) == "" <==> key == ""
    ensures key != "" ==> Before(key, b)[0] == key[0]
  {
  }

  // And every line read as one for the key is such a line.
  lemma EntrySpelled(line: string, key: string)
    requires !IsHeader(Trim(line)) && ReaderMatches(Trim(line), key)
    ensures KeyLine(line, key, ValueIn(Trim(line)))
  {
    hide Unquote, SkipLeading, SkipTrailing, Trim, Find, Spells, Bare, Tight;
    var e := Trim(line);
    var i := Separator(e);
    var a, d := TrimParts(line);
    var b := TrailingParts(e[..i]);
    var c, d2 := TrimParts(e[i + 1..]);
    var v := Trim(e[i + 1..]);
    var mark := e[i..i + 1];
    MarkOf(e, i);
    Assembled(line, a, key, b, mark, c, v, d2, d, e, i);
    TightPrefix(e, i, key, b);
    SpelledFrom(line, a, key, b, mark, c, v, d2 + d, e, i);
    UnquoteIs(v, Unquote(v));
  }

  lemma TightPrefix(e: string, i: nat, key: string, b: string)
    requires Tight(e) && i < |e| && e[..i] == key + b && (key != "" ==> ' ' < key[|key| - 1] < 128 as char)
    ensures Tight(key)
  {
    assert key != "" ==> key[0] == e[..i][0];
  }

  lemma Assembled(line: string, a: string, key: string, b: string, mark: string, c: string, v: string,
                  d2: string, d: string, e: string, i: nat)
    requires i < |e| && mark == e[i..i + 1] && e[..i] == key + b && e[i + 1..] == c + v + d2 && line == a + e + d
    ensures line == a + key + b + mark + c + v + (d2 + d)
    ensures forall x :: x in v ==> x in e
  {
    assert e == e[..i] + mark + e[i + 1..];
    assert forall x :: x in v ==> x in e[i + 1..];
  }

  lemma MarkOf(e: string, i: nat)
    requires i == Separator(e) < |e|
    ensures (e[i..i + 1] == "=" && '=' !in e[..i]) || (e[i..i + 1] == ":" && '=' !in e && ':' !in e[..i])
  {
    FindAbsent(e, '=');
  }

  lemma SpelledFrom(line: string, a: string, key: string, b: string, mark: string, c: string, v: string, d: string,
                    e: string, i: nat)
    requires i < |e| && e[..i] == key + b && mark == e[i..i + 1] && !IsHeader(e) && !IsComment(e)
    requires line == a + key + b + mark + c + v + d && Blanks(a) && Blanks(b) && Blanks(c) && Blanks(d)
    requires Tight(key) && Tight(v) && forall x :: x in v ==> x in e
    requires (mark == "=" && '=' !in e[..i]) || (mark == ":" && '=' !in e && ':' !in e[..i])
    ensures Spells(line, a, key, b, mark, c, v, d)
  {
    assert forall x :: x in key ==> x in e[..i];
    assert key != "" ==> key[0] == e[..i][0] == e[0];
    assert forall x :: x in e[..i] ==> x in e;
  }

  // A line is for the key, with this value, exactly if its entry is read so.
  lemma KeyLineRead(line: string, key: string, w: string)
    ensures KeyLine(line, key, w) <==>
              var e := Trim(line); !IsHeader(e) && ReaderMatches(e, key) && ValueIn(e) == w
  {
    hide Spells, Bare, Unquote, Trim, IsHeader, IsComment;
    if KeyLine(line, key, w) {
      var a, b, mark, c, v, d :| Spells(line, a, key, b, mark, c, v, d) && Bare(v, w);
      SpelledEntry(line, a, key, b, mark, c, v, d);
      UnquoteIs(v, w);
    }
    if !IsHeader(Trim(line)) && ReaderMatches(Trim(line), key) {
      EntrySpelled(line, key);
    }
  }

  lemma AnyHeaderRead(line: string)
    ensures AnyHeader(line) <==> IsHeader(Trim(line))
  {
    hide Trim, SkipLeading, SkipTrailing;
    if AnyHeader(line) {
      var a, t :| Opens(line, a, t);
      var d := OpenedTrim(line, a, t);
    }
    if IsHeader(Trim(line)) {
      var a, d := TrimParts(line);
      var e := Trim(line);
      assert e == "[" + e[1..];
      assert Opens(line, a, e[1..] + d);
    }
  }

  // The entry of a header is the bracket and what follows it, but for blanks at its end.
  lemma OpenedTrim(line: string, a: string, t: string) returns (d: string)
    requires Opens(line, a, t)
    ensures Blanks(d) && Trim(line) + d == "[" + t && Trim(line) != "" && Trim(line)[0] == '['
  {
    var s := "[" + t;
    assert line == a + s;
    LeadingIs(a, s);
    d := TrailingParts(s);
    SkipTrailingOfSuffix(s, 0);
  }

  lemma HeaderRead(line: string, section: string)
    requires ']' !in section
    ensures HeaderLine(line, section) <==> HeaderOf(Trim(line), section)
  {
    hide Trim, Find;
    var e := Trim(line);
    if HeaderLine(line, section) {
      var a, t :| Opens(line, a, section + "]" + t);
      var d := OpenedTrim(line, a, section + "]" + t);
      NamedHeader(e, d, section, t);
    }
    if HeaderOf(e, section) {
      var a, d := TrimParts(line);
      var i := Find(e, ']');
      assert e == "[" + (section + "]" + e[i + 1..]);
      assert Opens(line, a, section + "]" + (e[i + 1..] + d));
    }
  }

  lemma NamedHeader(e: string, d: string, section: string, t: string)
    requires Blanks(d) && e + d == "[" + (section + "]" + t) && e != "" && ']' !in section
    ensures HeaderOf(e, section)
  {
    var s := e + d;
    var i := |section| + 1;
    assert s[i] == ']' && s[..i] == "[" + section;
    assert forall k | |e| <= k < |s| :: s[k] == d[k - |e|];
    assert e[i] == ']' && e[..i] == s[..i] && e[1..i] == section;
    FindIs(e, ']', i);
  }

  // ---------------------------------------------------------- a whole file

  function FileText(lines: seq<string>): string {
    if lines == [] then "" else lines[0] + "\n" + FileText(lines[1..])
  }

  predicate LineFits(line: string) {
    '\n' !in line && |line| <= BUFFER_SIZE - 2
  }

  function EntriesIn(lines: seq<string>): seq<string> {
    if lines == [] then [] else Entry(lines[0]) + EntriesIn(lines[1..])
  }

  lemma {:induction false} TextEntries(lines: seq<string>)
    requires forall line :: line in lines ==> LineFits(line)
    ensures Entries(FileText(lines)) == EntriesIn(lines) && Fits(FileText(lines))
  {
    hide Trim, LineLength, Entries;
    if lines == [] {
      NoEntries();
    } else {
      TextEntries(lines[1..]);
      var line := lines[0];
      assert LineFits(line);
      var s, more := line + "\n", FileText(lines[1..]);
      assert s[..|s| - 1] == line;
      EntriesOf(s, more);
      SkipLeadingThenBlank(line, '\n');
    }
  }

  lemma NoEntries()
    ensures Entries("") == [] && Fits("")
  {
  }

  ghost predicate KeyFor(line: string, key: string) {
    exists w :: KeyLine(line, key, w)
  }

  // The j-th line is the first for the key, with no header before it.
  ghost predicate FoundAt(lines: seq<string>, key: string, w: string, j: nat) {
    && j < |lines| && KeyLine(lines[j], key, w) && !AnyHeader(lines[j])
    && forall i :: 0 <= i < j ==> !AnyHeader(lines[i]) && !KeyFor(lines[i], key)
  }

  ghost predicate Found(lines: seq<string>, key: string, w: string) {
    exists j: nat :: FoundAt(lines, key, w, j)
  }

  // The h-th line is the first header of the section.
  ghost predicate StartsAt(lines: seq<string>, section: string, h: nat) {
    && h < |lines| && HeaderLine(lines[h], section)
    && forall i :: 0 <= i < h ==> !HeaderLine(lines[i], section)
  }

  // The file says w for the key in the section; no name stands for its top.
  ghost predicate Says(lines: seq<string>, section: string, key: string, w: string) {
    if section == "" then Found(lines, key, w)
    else exists h: nat :: StartsAt(lines, section, h) && Found(lines[h + 1..], key, w)
  }

  lemma FoundFirst(lines: seq<string>, key: string, w: string)
    requires lines != []
    ensures Found(lines, key, w) <==>
              !AnyHeader(lines[0]) &&
              (KeyLine(lines[0], key, w) || (!KeyFor(lines[0], key) && Found(lines[1..], key, w)))
  {
    hide AnyHeader, KeyLine;
    if Found(lines, key, w) {
      var j: nat :| FoundAt(lines, key, w, j);
      if j > 0 {
        assert FoundAt(lines[1..], key, w, j - 1);
      }
    }
    if !AnyHeader(lines[0]) && KeyLine(lines[0], key, w) {
      assert FoundAt(lines, key, w, 0);
    } else if !AnyHeader(lines[0]) && !KeyFor(lines[0], key) && Found(lines[1..], key, w) {
      var j: nat :| FoundAt(lines[1..], key, w, j);
      assert forall i | 0 < i < |lines| :: lines[i] == lines[1..][i - 1];
      assert FoundAt(lines, key, w, j + 1);
    }
  }

  // A line has one value for a key.
  lemma KeyForRead(line: string, key: string)
    ensures KeyFor(line, key) <==> !IsHeader(Trim(line)) && ReaderMatches(Trim(line), key)
  {
    hide Trim, IsHeader, KeyLine, ValueIn;
    if KeyFor(line, key) {
      var w :| KeyLine(line, key, w);
      KeyLineRead(line, key, w);
    }
    if !IsHeader(Trim(line)) && ReaderMatches(Trim(line), key) {
      KeyLineRead(line, key, ValueIn(Trim(line)));
    }
  }

  lemma {:induction false} ScanFinds(lines: seq<string>, key: string, w: string)
    ensures Scan(EntriesIn(lines), key) == Some(w) <==> Found(lines, key, w)
  {
    hide Trim, IsHeader, KeyLine, KeyFor, AnyHeader, ValueIn, Found;
    if lines == [] {
      NothingFound(key, w);
    } else {
      var line := lines[0];
      ScanFinds(lines[1..], key, w);
      FoundFirst(lines, key, w);
      AnyHeaderRead(line);
      KeyForRead(line, key);
      KeyLineRead(line, key, w);
      var es := EntriesIn(lines[1..]);
      if Trim(line) == "" {
        EmptyMatchesNothing(key);
        assert [] + es == es;
      } else {
        assert ([Trim(line)] + es)[1..] == es;
      }
    }
  }

  lemma NothingFound(key: string, w: string)
    ensures !Found([], key, w)
  {
  }

  lemma EmptyMatchesNothing(key: string)
    ensures !ReaderMatches("", key) && !IsHeader("")
  {
  }

  lemma SaysFirst(lines: seq<string>, section: string, key: string, w: string)
    requires lines != [] && section != ""
    ensures Says(lines, section, key, w) <==>
              if HeaderLine(lines[0], section) then Found(lines[1..], key, w) else Says(lines[1..], section, key, w)
  {
    hide HeaderLine, Found;
    if Says(lines, section, key, w) {
      var h: nat :| StartsAt(lines, section, h) && Found(lines[h + 1..], key, w);
      if h > 0 {
        assert StartsAt(lines[1..], section, h - 1) && lines[1..][h..] == lines[h + 1..];
      }
    }
    if HeaderLine(lines[0], section) {
      if Found(lines[1..], key, w) {
        assert StartsAt(lines, section, 0);
      }
    } else if Says(lines[1..], section, key, w) {
      var h: nat :| StartsAt(lines[1..], section, h) && Found(lines[1..][h + 1..], key, w);
      assert forall i | 0 < i < |lines| :: lines[i] == lines[1..][i - 1];
      assert StartsAt(lines, section, h + 1) && lines[1..][h + 1..] == lines[h + 2..];
    }
  }

  lemma {:induction false} ReadsSays(lines: seq<string>, section: string, key: string, w: string)
    requires ']' !in section
    ensures Reads(EntriesIn(lines), section, key) == Some(w) <==> Says(lines, section, key, w)
  {
    hide Trim, HeaderLine, HeaderOf, Found, Scan;
    if section == "" {
      ScanFinds(lines, key, w);
    } else if lines != [] {
      var line := lines[0];
      ReadsSays(lines[1..], section, key, w);
      ScanFinds(lines[1..], key, w);
      SaysFirst(lines, section, key, w);
      HeaderRead(line, section);
      var es := EntriesIn(lines[1..]);
      if Trim(line) == "" {
        NoHeaderThere(section);
        assert [] + es == es;
      } else {
        assert ([Trim(line)] + es)[1..] == es;
      }
    }
  }

  lemma NoHeaderThere(section: string)
    ensures !HeaderOf("", section)
  {
  }

  // A key reads as exactly what the lines of the file say.
  lemma FileSays(lines: seq<string>, section: string, key: string, w: string)
    requires (forall line :: line in lines ==> LineFits(line)) && ']' !in section
    ensures GetIn(Some(FileText(lines)), section, key) == Some(w) <==> Says(lines, section, key, w)
  {
    hide Says, Reads, Entries, EntriesIn, FileText;
    TextEntries(lines);
    ReadsSays(lines, section, key, w);
  }
}
