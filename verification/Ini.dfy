// Reading and rewriting a configuration file, line by line
// (libcwmp/src/ini.c).
module Ini {
  import opened Wrappers
  import opened IniText

  function Line(text: string): (r: string)
    requires text != ""
  {
    text[..LineLength(text)]
  }

  function Rest(text: string): (r: string)
    requires text != ""
    ensures |r| < |text|
  {
    text[LineLength(text)..]
  }

  // Copying into a buffer with room for n characters.
  function Cut(s: string, n: nat): (r: string)
    ensures |r| <= n
  {
    if |s| <= n then s else s[..n]
  }

  // ------------------------------------------------------------------ reading

  // One step of the reader: what it sees of the line is the entry.
  lemma ReadStep(text: string, section: string, key: string)
    requires text != ""
    ensures var sp := SkipLeading(Line(text));
            if SkipTrailing(sp) == "" then
              && Entries(text) == Entries(Rest(text)) && sp == ""
              && !HeaderOf(sp, section) && !ReaderMatches(sp, key) && !WriterMatches(sp, key)
            else
              var e := SkipTrailing(sp);
              && sp != ""
              && Entries(text) == [e] + Entries(Rest(text))
              && (IsHeader(sp) <==> IsHeader(e)) && (HeaderOf(sp, section) <==> HeaderOf(e, section))
              && (Separator(sp) < |sp| <==> Separator(e) < |e|)
              && (Separator(sp) < |sp| ==> ValueIn(sp) == ValueIn(e))
              && (ReaderMatches(sp, key) <==> ReaderMatches(e, key))
              && (WriterMatches(sp, key) <==> WriterMatches(e, key))
  {
    hide Find, Separator, SkipTrailing, SkipLeading, HeaderOf, ReaderMatches, WriterMatches, ValueIn;
    var line := Line(text);
    SkipLeadingStops(line);
    TrimmedFirst(SkipLeading(line));
    TrimmedLine(SkipLeading(line), section, key);
    NothingMatches(section, key);
  }

  lemma NothingMatches(section: string, key: string)
    ensures !HeaderOf("", section) && !ReaderMatches("", key) && !WriterMatches("", key)
  {
  }

  function Saved(r: Option<string>, size: nat): Option<string>
    requires size > 0
  {
    match r
    case None => None
    case Some(v) => Some(Cut(v, size - 1))
  }

  // The value of a key in a section.
  method GetKeystring(fp: string, section: string, key: string, size: nat) returns (r: Option<string>)
    requires size > 0
    ensures r == Saved(Reads(Entries(fp), section, key), size)
  {
    hide Find, Separator, SkipTrailing, SkipLeading, HeaderOf, ReaderMatches, WriterMatches, ValueIn, Entry, LineLength;
    var rest := fp;
    if |section| > 0 {
      var sp: string;
      while true
        invariant After(Entries(fp), section) == After(Entries(rest), section)
        decreases |rest|
      {
        if rest == "" {
          return None;
        }
        ReadStep(rest, section, key);
        sp := SkipLeading(Line(rest));
        rest := Rest(rest);
        if HeaderOf(sp, section) {
          break;
        }
      }
      assert After(Entries(fp), section) == Some(Entries(rest));
    }
    while true
      invariant Reads(Entries(fp), section, key) == Scan(Entries(rest), key)
      decreases |rest|
    {
      if rest == "" {
        return None;
      }
      ReadStep(rest, section, key);
      var sp := SkipLeading(Line(rest));
      rest := Rest(rest);
      if IsHeader(sp) {
        return None;
      }
      if ReaderMatches(sp, key) {
        ReaderSeparates(sp, key);
        return Some(Cut(ValueIn(sp), size - 1));
      }
    }
  }

  lemma ReaderSeparates(s: string, key: string)
    requires ReaderMatches(s, key)
    ensures Separator(s) < |s|
  {
  }

  // ini_gets: the value, or else the default, as far as the buffer goes.
  method Gets(file: Option<string>, section: string, key: string, byDefault: string, size: nat)
    returns (buffer: string)
    requires size > 0
    ensures buffer ==
              match GetIn(file, section, key)
              case None => Cut(byDefault, size - 1)
              case Some(v) => Cut(v, size - 1)
  {
    var ok: Option<string> := None;
    if file.Some? {
      ok := GetKeystring(file.value, section, key, size);
    }
    if ok.None? {
      buffer := Cut(byDefault, size - 1);
    } else {
      buffer := ok.value;
    }
  }

  // What a reader with room enough gets from a file that may not exist.
  function GetIn(file: Option<string>, section: string, key: string): Option<string> {
    match file
    case None => None
    case Some(text) => Reads(Entries(text), section, key)
  }

  // ------------------------------------------------------------------ writing

  function SectionText(section: string): string {
    if section == "" then "" else "[" + Cut(section, BUFFER_SIZE - 5) + "]\n"
  }

  function KeyText(key: string, value: string): string {
    var k := Cut(key, BUFFER_SIZE - 4);
    k + "=" + Cut(value, BUFFER_SIZE - 4 - |k|) + "\n"
  }

  function KeyTextIf(key: Option<string>, value: Option<string>): string {
    if key.Some? && value.Some? then KeyText(key.value, value.value) else ""
  }

  // The rest of the file: no empty lines but one before each header.
  function CopyRest(text: string): string {
    if text == "" then ""
    else
      var sp := SkipLeading(Line(text));
      (if sp == "" then "" else (if IsHeader(sp) then "\n" else "") + sp) + CopyRest(Rest(text))
  }

  // From inside the section: lines are kept up to the key or the next header,
  // and the key's line is put in its place.
  function RewriteKeys(text: string, key: Option<string>, value: Option<string>): string {
    if text == "" then
      if key.Some? && value.Some? then "\n" + KeyText(key.value, value.value) else ""
    else
      var sp := SkipLeading(Line(text));
      if IsHeader(sp) then
        (if key.Some? && value.Some? then key.value + "=" + value.value + "\n\n" else "") + sp + CopyRest(Rest(text))
      else if key.Some? && WriterMatches(sp, key.value) then
        KeyTextIf(key, value) + CopyRest(Rest(text))
      else
        (if key.Some? then sp else "") + RewriteKeys(Rest(text), key, value)
  }

  // From before the section: copied says whether a line was kept already.
  function RewriteFrom(text: string, section: string, key: Option<string>, value: Option<string>,
      copied: bool): string {
    if text == "" then
      if key.Some? && value.Some? then "\n" + SectionText(section) + KeyText(key.value, value.value) else ""
    else
      var sp := SkipLeading(Line(text));
      var found := HeaderOf(sp, section);
      var keep := (!found || key.Some?) && sp != "";
      (if keep then (if IsHeader(sp) && copied then "\n" else "") + sp else "")
      + (if found then RewriteKeys(Rest(text), key, value)
         else RewriteFrom(Rest(text), section, key, value, copied || keep))
  }

  function Put(file: Option<string>, section: string, key: Option<string>, value: Option<string>): Option<string> {
    match file
    case None =>
      if key.Some? && value.Some? then Some(SectionText(section) + KeyText(key.value, value.value)) else None
    case Some(text) =>
      if key.Some? && value.Some?
         && Saved(Reads(Entries(text), section, key.value), BUFFER_SIZE) == Some(value.value) then file
      else if section == "" then Some(RewriteKeys(text, key, value))
      else Some(RewriteFrom(text, section, key, value, false))
  }

  // Copies the rest of the file.
  method CopyTail(from: string, to: string) returns (wfp: string)
    ensures wfp == to + CopyRest(from)
  {
    hide SkipLeading, Line, Rest;
    var rest := from;
    wfp := to;
    while rest != ""
      invariant wfp + CopyRest(rest) == to + CopyRest(from)
      decreases |rest|
    {
      ghost var was := wfp;
      var sp := SkipLeading(Line(rest));
      if |sp| > 0 {
        if IsHeader(sp) {
          wfp := wfp + "\n";
        }
        wfp := wfp + sp;
      }
      Shorter(rest);
      rest := Rest(rest);
      var kept := if sp == "" then "" else (if IsHeader(sp) then "\n" else "") + sp;
      assert wfp == was + kept;
      Assoc(was, kept, CopyRest(rest));
    }
  }

  lemma Shorter(text: string)
    requires text != ""
    ensures |Rest(text)| < |text|
  {
  }

  // Finds the key, or the end of the section, and puts the new line there.
  method PutKey(from: string, to: string, key: Option<string>, value: Option<string>) returns (wfp: string)
    ensures wfp == to + RewriteKeys(from, key, value)
  {
    hide SkipLeading, Line, Rest, CopyRest, KeyText, WriterMatches;
    var rest := from;
    wfp := to;
    var sp: string;
    while true
      invariant wfp + RewriteKeys(rest, key, value) == to + RewriteKeys(from, key, value)
      decreases |rest|
    {
      if rest == "" {
        if key.Some? && value.Some? {
          Assoc(wfp, "\n", KeyText(key.value, value.value));
          wfp := wfp + "\n";
          wfp := wfp + KeyText(key.value, value.value);
        }
        return;
      }
      Shorter(rest);
      sp := SkipLeading(Line(rest));
      var matching := key.Some? && WriterMatches(sp, key.value);
      if matching || IsHeader(sp) {
        break;
      }
      if key.Some? && |sp| > 0 {
        wfp := wfp + sp;
        Assoc(wfp[..|wfp| - |sp|], sp, RewriteKeys(Rest(rest), key, value));
      }
      rest := Rest(rest);
    }
    ghost var was := wfp;
    var tail := Rest(rest);
    if IsHeader(sp) {
      if key.Some? && value.Some? {
        wfp := wfp + key.value;
        wfp := wfp + "=";
        wfp := wfp + value.value;
        wfp := wfp + "\n\n";
        assert wfp == was + (key.value + "=" + value.value + "\n\n");
      }
      wfp := wfp + sp;
      HeaderReached(was, wfp, rest, sp, key, value);
    } else {
      wfp := wfp + KeyTextIf(key, value);
      Assoc(was, KeyTextIf(key, value), CopyRest(tail));
    }
    wfp := CopyTail(tail, wfp);
  }

  lemma HeaderReached(was: string, now: string, rest: string, sp: string, key: Option<string>, value: Option<string>)
    requires rest != "" && sp == SkipLeading(Line(rest)) && IsHeader(sp)
    requires now == was + (if key.Some? && value.Some? then key.value + "=" + value.value + "\n\n" else "") + sp
    ensures was + RewriteKeys(rest, key, value) == now + CopyRest(Rest(rest))
  {
    var line := if key.Some? && value.Some? then key.value + "=" + value.value + "\n\n" else "";
    Assoc(line, sp, CopyRest(Rest(rest)));
    Assoc(was + line, sp, CopyRest(Rest(rest)));
    Assoc(was, line, sp + CopyRest(Rest(rest)));
  }

  lemma EndReached(was: string, now: string, section: string, key: Option<string>, value: Option<string>, copied: bool)
    requires now == if key.Some? && value.Some? then was + "\n" + SectionText(section) + KeyText(key.value, value.value)
                    else was
    ensures was + RewriteFrom("", section, key, value, copied) == now
  {
    if key.Some? && value.Some? {
      var s, k := SectionText(section), KeyText(key.value, value.value);
      Assoc(was, "\n", s);
      Assoc(was, "\n" + s, k);
    }
  }

  // Copies the file up to and including the section's header, or to the end,
  // where the section is then added.
  method FindSection(from: string, section: string, key: Option<string>, value: Option<string>)
    returns (found: bool, rest: string, wfp: string)
    ensures RewriteFrom(from, section, key, value, false)
            == if found then wfp + RewriteKeys(rest, key, value) else wfp
  {
    hide SkipLeading, HeaderOf, Line, Rest, KeyText, SectionText, RewriteKeys;
    rest, wfp, found := from, "", false;
    var count := 0;
    ghost var goal := RewriteFrom(from, section, key, value, false);
    assert "" + goal == goal;
    while !found
      invariant found ==> wfp + RewriteKeys(rest, key, value) == goal
      invariant !found ==> wfp + RewriteFrom(rest, section, key, value, count > 0) == goal
      decreases |rest|, if found then 0 else 1
    {
      ghost var was := wfp;
      if rest == "" {
        if key.Some? && value.Some? {
          wfp := wfp + "\n";
          wfp := wfp + SectionText(section);
          wfp := wfp + KeyText(key.value, value.value);
        }
        EndReached(was, wfp, section, key, value, count > 0);
        return;
      }
      Shorter(rest);
      var sp := SkipLeading(Line(rest));
      found := HeaderOf(sp, section);
      ghost var kept := "";
      ghost var copied := count > 0;
      if !found || key.Some? {
        if |sp| > 0 {
          kept := (if IsHeader(sp) && copied then "\n" else "") + sp;
          if IsHeader(sp) && count > 0 {
            wfp := wfp + "\n";
          }
          wfp := wfp + sp;
          count := count + 1;
        }
      }
      Joined(was, wfp, kept, sp, IsHeader(sp) && copied);
      LineCopied(rest, section, key, value, copied);
      rest := Rest(rest);
      Assoc(was, kept, if found then RewriteKeys(rest, key, value)
                       else RewriteFrom(rest, section, key, value, count > 0));
    }
  }

  lemma Joined(was: string, now: string, kept: string, sp: string, broken: bool)
    requires if kept == "" then now == was
             else kept == (if broken then "\n" else "") + sp && now == (if broken then was + "\n" else was) + sp
    ensures now == was + kept
  {
  }

  lemma LineCopied(rest: string, section: string, key: Option<string>, value: Option<string>, copied: bool)
    requires rest != ""
    ensures var sp := SkipLeading(Line(rest));
            var found := HeaderOf(sp, section);
            var keep := (!found || key.Some?) && sp != "";
            RewriteFrom(rest, section, key, value, copied)
            == (if keep then (if IsHeader(sp) && copied then "\n" else "") + sp else "")
               + (if found then RewriteKeys(Rest(rest), key, value)
                  else RewriteFrom(Rest(rest), section, key, value, copied || keep))
  {
  }

  // ini_puts: no key erases the section's keys, no value erases the key.
  method Puts(file: Option<string>, section: string, key: Option<string>, value: Option<string>)
    returns (out: Option<string>)
    ensures out == Put(file, section, key, value)
  {
    hide KeyText, SectionText, Reads, Entries, RewriteKeys, RewriteFrom;
    if file.None? {
      if key.Some? && value.Some? {
        var wfp := SectionText(section);
        wfp := wfp + KeyText(key.value, value.value);
        return Some(wfp);
      }
      return None;
    }
    var text := file.value;
    if key.Some? && value.Some? {
      var got := GetKeystring(text, section, key.value, BUFFER_SIZE);
      if got == Some(value.value) {
        return file;
      }
    }
    var rest, wfp := text, "";
    if |section| > 0 {
      var found;
      found, rest, wfp := FindSection(text, section, key, value);
      if !found {
        return Some(wfp);
      }
    }
    wfp := PutKey(rest, wfp, key, value);
    assert "" + RewriteKeys(text, key, value) == RewriteKeys(text, key, value);
    return Some(wfp);
  }
}
