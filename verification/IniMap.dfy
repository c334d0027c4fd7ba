// What putting a value does to what can be read: a configuration file refines
// a map from (section, key) to value.
module IniMap {
  import opened Wrappers
  import opened IniText
  import opened Ini
  import opened IniMeaning

  // --------------------------------------------------------- the added lines

  lemma KeyEntryReads(k: string, v: string)
    requires GoodKey(k)
    ensures var e := KeyEntry(k, v);
            && !IsHeader(e) && !IsComment(e) && Separator(e) == |k| < |e| && e[..|k|] == k
            && ValueIn(e) == Unquote(Trim(v))
    ensures forall other :: ReaderMatches(KeyEntry(k, v), other) <==> other == k
    ensures forall section :: !HeaderOf(KeyEntry(k, v), section)
  {
    KeyEntrySplits(k, v);
    hide KeyEntry, Separator, ValueIn;
    assert SkipTrailing(k) == k;
    assert KeyEntry(k, v)[0] == k[0];
  }

  lemma KeyEntrySplits(k: string, v: string)
    requires GoodKey(k)
    ensures var e := KeyEntry(k, v);
            Separator(e) == |k| < |e| && e[..|k|] == k && ValueIn(e) == Unquote(Trim(v))
  {
    hide SkipTrailing, SkipLeading, Find;
    var s := k + "=" + v;
    var e := KeyEntry(k, v);
    assert s[..|k|] == k && s[|k|] == '=';
    SkipTrailingOfSuffix(s, |k|);
    SkipTrailingStops(s);
    assert e[..|k|] == k && e[|k|] == '=';
    FindIs(e, '=', |k|);
    TrimOfSuffix(s, |k|);
    assert s[|k| + 1..] == v;
  }

  lemma HeaderEntryIs(section: string, other: string)
    requires ']' !in section
    ensures var e := HeaderEntry(section); IsHeader(e) && (HeaderOf(e, other) <==> section == other)
  {
    var e := HeaderEntry(section);
    assert e[..|section| + 1] == "[" + section;
    FindIs(e, ']', |section| + 1);
    assert e[1..|section| + 1] == section;
  }

  // ------------------------------------------- the section that is written to

  // The first line the reader takes for the key is one the writer takes for
  // it, or there is none.
  predicate Agrees(es: seq<string>, key: string) {
    if es == [] || IsHeader(es[0]) then true
    else if ReaderMatches(es[0], key) then WriterMatches(es[0], key)
    else Agrees(es[1..], key)
  }

  predicate AgreesIn(es: seq<string>, section: string, key: string) {
    if section == "" then Agrees(es, key)
    else
      match After(es, section)
      case None => true
      case Some(rest) => Agrees(rest, key)
  }

  lemma {:induction false} KeyedReads(es: seq<string>, k: string, v: string)
    requires GoodKey(k)
    ensures Scan(Keyed(es, Some(k), [KeyEntry(k, v)]), k)
            == if Agrees(es, k) then Some(Unquote(Trim(v))) else Scan(es, k)
  {
    hide ReaderMatches, WriterMatches, ValueIn, KeyEntry, GoodKey, IsHeader;
    KeyEntryReads(k, v);
    var line := [KeyEntry(k, v)];
    if es != [] && !IsHeader(es[0]) {
      WriterReader(es[0], k);
      if !WriterMatches(es[0], k) {
        KeyedReads(es[1..], k, v);
        assert ([es[0]] + Keyed(es[1..], Some(k), line))[1..] == Keyed(es[1..], Some(k), line);
      }
    }
  }

  // A line the writer takes for the key, the reader takes for it too, and for
  // no other.
  lemma WriterReader(s: string, k: string)
    ensures GoodKey(k) && WriterMatches(s, k) ==> forall other :: ReaderMatches(s, other) <==> other == k
  {
    if GoodKey(k) && WriterMatches(s, k) {
      assert s[..Separator(s)] == k && s[0] == k[0];
      assert SkipTrailing(k) == k;
    }
  }

  lemma {:induction false} SectionedReads(es: seq<string>, section: string, k: string, v: string)
    requires GoodKey(k) && section != "" && ']' !in section
    ensures Reads(Sectioned(es, section, Some(k), [KeyEntry(k, v)]), section, k)
            == if AgreesIn(es, section, k) then Some(Unquote(Trim(v))) else Reads(es, section, k)
  {
    hide KeyEntry, GoodKey, HeaderOf, HeaderEntry, Agrees, Scan, Keyed;
    var line := [KeyEntry(k, v)];
    if es == [] {
      HeaderEntryIs(section, section);
      KeyedReads([], k, v);
      assert ([HeaderEntry(section)] + line)[1..] == line;
      KeyedEmpty(k, line);
    } else if HeaderOf(es[0], section) {
      KeyedReads(es[1..], k, v);
      assert ([es[0]] + Keyed(es[1..], Some(k), line))[1..] == Keyed(es[1..], Some(k), line);
    } else {
      SectionedReads(es[1..], section, k, v);
      assert ([es[0]] + Sectioned(es[1..], section, Some(k), line))[1..] == Sectioned(es[1..], section, Some(k), line);
    }
  }

  lemma KeyedEmpty(k: string, line: seq<string>)
    ensures Keyed([], Some(k), line) == line && Agrees([], k)
  {
  }

  // ------------------------------------------------------- everything else

  // The lines before the next header are the only ones touched.
  lemma {:induction false} KeyedAfter(es: seq<string>, key: Option<string>, value: Option<string>, other: string)
    requires key.Some? ==> GoodKey(key.value)
    ensures After(Keyed(es, key, Added(key, value)), other) == After(es, other)
  {
    hide ReaderMatches, WriterMatches, KeyEntry, GoodKey, HeaderOf;
    var line := Added(key, value);
    if key.Some? && value.Some? {
      KeyEntryReads(key.value, value.value);
    }
    if es == [] {
      AddedAfter(line, [], other);
    } else if IsHeader(es[0]) {
      AddedAfter(line, es, other);
    } else {
      NoHeader(es[0], other);
      if key.Some? && WriterMatches(es[0], key.value) {
        AddedAfter(line, es[1..], other);
      } else {
        KeyedAfter(es[1..], key, value, other);
        AddedAfter(if key.Some? then [es[0]] else [], Keyed(es[1..], key, line), other);
      }
    }
  }

  lemma NoHeader(s: string, section: string)
    requires !IsHeader(s)
    ensures !HeaderOf(s, section)
  {
  }

  lemma AddedAfter(line: seq<string>, es: seq<string>, other: string)
    requires line == [] || (|line| == 1 && !HeaderOf(line[0], other))
    ensures After(line + es, other) == After(es, other)
  {
    if line == [] {
      assert line + es == es;
    } else {
      assert (line + es)[1..] == es;
    }
  }

  lemma AddedScan(line: seq<string>, es: seq<string>, key: string)
    requires line == [] || (|line| == 1 && !IsHeader(line[0]) && !ReaderMatches(line[0], key))
    ensures Scan(line + es, key) == Scan(es, key)
  {
    if line == [] {
      assert line + es == es;
    } else {
      assert (line + es)[1..] == es;
    }
  }

  lemma {:induction false} KeyedScan(es: seq<string>, k: string, value: Option<string>, other: string)
    requires GoodKey(k) && other != k
    ensures Scan(Keyed(es, Some(k), Added(Some(k), value)), other) == Scan(es, other)
  {
    hide ReaderMatches, WriterMatches, ValueIn, KeyEntry, GoodKey, IsHeader;
    var line := Added(Some(k), value);
    if value.Some? {
      KeyEntryReads(k, value.value);
    }
    if es == [] {
      AddedScan(line, [], other);
    } else if IsHeader(es[0]) {
      AddedScan(line, es, other);
    } else {
      WriterReader(es[0], k);
      if WriterMatches(es[0], k) {
        AddedScan(line, es[1..], other);
      } else {
        KeyedScan(es[1..], k, value, other);
        assert ([es[0]] + Keyed(es[1..], Some(k), line))[1..] == Keyed(es[1..], Some(k), line);
      }
    }
  }

  // The top of the file, above every header, is not touched by a put into a
  // section, nor is what follows another header.
  lemma {:induction false} SectionedOthers(es: seq<string>, section: string, key: Option<string>, value: Option<string>,
                                           other: string, k: string)
    requires (key.Some? ==> GoodKey(key.value)) && section != "" && ']' !in section && other != section
    ensures var now := Sectioned(es, section, key, Added(key, value));
            && Scan(now, k) == Scan(es, k)
            && (After(now, other).Some? <==> After(es, other).Some?)
            && (After(now, other).Some? ==> Scan(After(now, other).value, k) == Scan(After(es, other).value, k))
  {
    hide KeyEntry, GoodKey, HeaderOf, HeaderEntry, ReaderMatches, ValueIn;
    var line := Added(key, value);
    if es == [] {
      HeaderEntryIs(section, other);
      if line != [] {
        KeyEntryReads(key.value, value.value);
        AddedAfter(line, [], other);
        assert line + [] == line;
        AddedAfter([HeaderEntry(section)], line, other);
      }
    } else if HeaderOf(es[0], section) {
      OneHeader(es[0], section, other);
      KeyedAfter(es[1..], key, value, other);
      var now := Keyed(es[1..], key, line);
      AddedAfter(if key.Some? then [es[0]] else [], now, other);
      if key.None? {
        ErasedScan(es[1..], k);
        assert [] + now == now;
      }
    } else {
      SectionedOthers(es[1..], section, key, value, other, k);
      var now := Sectioned(es[1..], section, key, line);
      assert ([es[0]] + now)[1..] == now;
    }
  }

  lemma OneHeader(s: string, section: string, other: string)
    requires HeaderOf(s, section) && other != section
    ensures IsHeader(s) && !HeaderOf(s, other)
  {
  }

  // With no key to put, nothing is left up to the next header.
  lemma {:induction false} ErasedScan(es: seq<string>, k: string)
    ensures Scan(Keyed(es, None, []), k) == None
  {
    if es != [] {
      if IsHeader(es[0]) {
        assert [] + es == es;
      } else {
        ErasedScan(es[1..], k);
        assert [] + Keyed(es[1..], None, []) == Keyed(es[1..], None, []);
      }
    }
  }

  // --------------------------------------------------------------- the file

  predicate FileFits(file: Option<string>) {
    file.Some? ==> Fits(file.value)
  }

  function FileEntries(file: Option<string>): seq<string> {
    match file
    case None => []
    case Some(text) => Entries(text)
  }

  lemma ReadsNothing(section: string, key: string)
    ensures Reads([], section, key) == None && AgreesIn([], section, key)
  {
  }

  // A put that finds the value already there does nothing.
  predicate NothingToDo(file: Option<string>, section: string, key: Option<string>, value: Option<string>) {
    file.Some? && key.Some? && value.Some?
    && Saved(Reads(Entries(file.value), section, key.value), BUFFER_SIZE) == Some(value.value)
  }

  lemma NothingToDoIs(file: Option<string>, section: string, k: string, v: string)
    requires |v| < BUFFER_SIZE - 1
    ensures NothingToDo(file, section, Some(k), Some(v)) <==> GetIn(file, section, k) == Some(v)
  {
  }

  // The entries of the file a put leaves.
  lemma PutEntries(file: Option<string>, section: string, key: Option<string>, value: Option<string>)
    requires FileFits(file) && GoodPut(section, key, value)
    ensures FileFits(Put(file, section, key, value))
    ensures NothingToDo(file, section, key, value) ==> Put(file, section, key, value) == file
    ensures !NothingToDo(file, section, key, value) ==>
              FileEntries(Put(file, section, key, value))
              == if section == "" then Keyed(FileEntries(file), key, Added(key, value))
                 else Sectioned(FileEntries(file), section, key, Added(key, value))
  {
    hide Entries, Fits, KeyText, SectionText, RewriteKeys, RewriteFrom, GoodKey, KeyEntry, HeaderEntry, Reads;
    if file.None? {
      if key.Some? && value.Some? {
        NewSection(section, key.value, value.value);
      }
    } else if !NothingToDo(file, section, key, value) {
      if section == "" {
        RewrittenKeys(file.value, key, value);
      } else {
        RewrittenFrom(file.value, section, key, value, false);
      }
    }
  }

  // Reading a key just put returns its value, exactly when the value is
  // already there, or it is trimmed and not quoted and the file does not
  // already hold the key on a line with a blank before its separator, which
  // the reader finds and the writer does not.
  lemma PutThenGet(file: Option<string>, section: string, k: string, v: string)
    requires FileFits(file) && GoodSection(section) && GoodLine(k, v)
    ensures var now := Put(file, section, Some(k), Some(v));
            GetIn(now, section, k) == Some(v) <==>
              || GetIn(file, section, k) == Some(v)
              || (AgreesIn(FileEntries(file), section, k) && Unquote(Trim(v)) == v)
  {
    hide Entries, Put, KeyText, GoodKey, KeyEntry, Trim, Unquote, Keyed, Sectioned, Scan, After, Agrees;
    PutEntries(file, section, Some(k), Some(v));
    NothingToDoIs(file, section, k, v);
    ReadsNothing(section, k);
    if !NothingToDo(file, section, Some(k), Some(v)) {
      if section == "" {
        KeyedReads(FileEntries(file), k, v);
      } else {
        SectionedReads(FileEntries(file), section, k, v);
      }
    }
  }

  // A file of the one line "k = a": b is put, and a is still what is read.
  lemma BlankDefeatsPut()
    ensures var file := Some("k = a\n");
            FileFits(file) && GoodSection("") && GoodLine("k", "b") && Unquote(Trim("b")) == "b"
            && GetIn(Put(file, "", Some("k"), Some("b")), "", "k") != Some("b")
  {
    hide Put, Separator, ReaderMatches, WriterMatches, Find, Entries, Fits, GetIn, Agrees;
    OneSpacedLine();
    PutThenGet(Some("k = a\n"), "", "k", "b");
  }

  lemma OneSpacedLine()
    ensures Fits("k = a\n")
    ensures GetIn(Some("k = a\n"), "", "k") == Some("a")
    ensures !AgreesIn(FileEntries(Some("k = a\n")), "", "k")
  {
    hide Separator, ReaderMatches, WriterMatches, Find, Fits;
    var e := "k = a";
    SpacedLine();
    SpacedText();
    assert Scan([e], "k") == Some("a");
    assert !Agrees([e], "k");
  }

  lemma SpacedText()
    ensures Fits("k = a\n") && Entries("k = a\n") == ["k = a"]
  {
    hide Find, LineLength, Fits, Entries;
    var e := "k = a";
    assert e + "\n" == "k = a\n";
    assert ("k = a\n")[..5] == e;
    NoLineFeed();
    assert Piece("k = a\n");
    assert Entries("") == [] && Fits("") by { EmptyText(); }
    EntriesOf("k = a\n", "");
    assert "k = a\n" + "" == "k = a\n";
    SkipLeadingThenBlank(e, '\n');
    assert SkipLeading(e) == e && SkipTrailing(e) == e;
  }

  lemma NoLineFeed()
    ensures '\n' !in "k = a"
  {
  }

  lemma EmptyText()
    ensures Entries("") == [] && Fits("")
  {
  }

  lemma SpacedLine()
    ensures var e := "k = a";
            Separator(e) < |e| && ReaderMatches(e, "k") && !WriterMatches(e, "k") && !IsHeader(e) && ValueIn(e) == "a"
  {
    hide Find;
    var e := "k = a";
    assert e[..2] == "k " && '=' !in e[..2] && e[2] == '=';
    FindIs(e, '=', 2);
    assert "k "[..1] == "k" && SkipTrailing("k ") == "k";
    assert e[3..] == " a" && " a"[1..] == "a";
    assert SkipLeading(" a") == "a" && SkipTrailing("a") == "a";
  }

  // Every other key of every section reads as before, whatever is put, and
  // also when a key or a section is erased.
  lemma OthersUnchanged(file: Option<string>, section: string, key: Option<string>, value: Option<string>,
                        other: string, k: string)
    requires FileFits(file) && GoodPut(section, key, value)
    requires other != section || (key.Some? && k != key.value)
    ensures GetIn(Put(file, section, key, value), other, k) == GetIn(file, other, k)
  {
    hide Entries, Put, KeyText, GoodKey, KeyEntry, Keyed, Sectioned, Scan, After;
    PutEntries(file, section, key, value);
    ReadsNothing(other, k);
    var es := FileEntries(file);
    if !NothingToDo(file, section, key, value) {
      if section == "" && other == "" {
        KeyedScan(es, key.value, value, k);
      } else if section == "" {
        KeyedAfter(es, key, value, other);
      } else if other != section {
        SectionedOthers(es, section, key, value, other, k);
      } else {
        SectionedScan(es, section, key.value, value, k);
      }
    }
  }

  lemma {:induction false} SectionedScan(es: seq<string>, section: string, k: string, value: Option<string>,
      other: string)
    requires GoodKey(k) && section != "" && ']' !in section && other != k
    ensures Reads(Sectioned(es, section, Some(k), Added(Some(k), value)), section, other) == Reads(es, section, other)
  {
    hide KeyEntry, GoodKey, HeaderOf, HeaderEntry, Keyed, Scan;
    var line := Added(Some(k), value);
    if es == [] {
      if value.Some? {
        HeaderEntryIs(section, section);
        KeyedScan([], k, value, other);
        KeyedEmpty(k, line);
        assert ([HeaderEntry(section)] + line)[1..] == line;
        ScanNothing(other);
      }
    } else if HeaderOf(es[0], section) {
      KeyedScan(es[1..], k, value, other);
      assert ([es[0]] + Keyed(es[1..], Some(k), line))[1..] == Keyed(es[1..], Some(k), line);
    } else {
      SectionedScan(es[1..], section, k, value, other);
      assert ([es[0]] + Sectioned(es[1..], section, Some(k), line))[1..] == Sectioned(es[1..], section, Some(k), line);
    }
  }

  lemma ScanNothing(key: string)
    ensures Scan([], key) == None
  {
  }

  // ------------------------------------------------------------------ erasing

  // How many lines above the next header the reader takes for the key.
  function Matching(es: seq<string>, key: string): nat {
    if es == [] || IsHeader(es[0]) then 0
    else (if ReaderMatches(es[0], key) then 1 else 0) + Matching(es[1..], key)
  }

  // Whether the writer takes one of them for it.
  predicate Writable(es: seq<string>, key: string) {
    es != [] && !IsHeader(es[0]) && (WriterMatches(es[0], key) || Writable(es[1..], key))
  }

  function Inside(es: seq<string>, section: string): seq<string> {
    if section == "" then es
    else
      match After(es, section)
      case None => []
      case Some(rest) => rest
  }

  lemma {:induction false} ScanMatching(es: seq<string>, key: string)
    ensures Scan(es, key) == None <==> Matching(es, key) == 0
  {
    hide ReaderMatches, IsHeader, ValueIn;
    if es != [] && !IsHeader(es[0]) {
      ScanMatching(es[1..], key);
    }
  }

  lemma {:induction false} KeyedMatching(es: seq<string>, k: string)
    requires GoodKey(k)
    ensures Matching(es, k) == Matching(Keyed(es, Some(k), []), k) + if Writable(es, k) then 1 else 0
  {
    hide ReaderMatches, WriterMatches, GoodKey, IsHeader;
    if es != [] && !IsHeader(es[0]) {
      WriterReader(es[0], k);
      assert [] + es[1..] == es[1..];
      if !WriterMatches(es[0], k) {
        KeyedMatching(es[1..], k);
        assert ([es[0]] + Keyed(es[1..], Some(k), []))[1..] == Keyed(es[1..], Some(k), []);
      }
    } else {
      assert [] + es == es;
    }
  }

  lemma {:induction false} SectionedInside(es: seq<string>, section: string, k: string)
    requires section != ""
    ensures Inside(Sectioned(es, section, Some(k), []), section)
            == if After(es, section).Some? then Keyed(Inside(es, section), Some(k), []) else []
  {
    hide HeaderOf, Keyed;
    if es != [] {
      if HeaderOf(es[0], section) {
        assert ([es[0]] + Keyed(es[1..], Some(k), []))[1..] == Keyed(es[1..], Some(k), []);
      } else {
        SectionedInside(es[1..], section, k);
        assert ([es[0]] + Sectioned(es[1..], section, Some(k), []))[1..] == Sectioned(es[1..], section, Some(k), []);
      }
    }
  }

  lemma ReadsInside(es: seq<string>, section: string, key: string)
    ensures Reads(es, section, key) == Scan(Inside(es, section), key)
  {
  }

  // An erased key reads as unset exactly when the line the writer takes for it
  // was the only one the reader takes for it, or the reader took none.
  lemma EraseThenGet(file: Option<string>, section: string, k: string)
    requires FileFits(file) && GoodSection(section) && GoodKey(k)
    ensures var es := Inside(FileEntries(file), section);
            GetIn(Put(file, section, Some(k), None), section, k) == None
            <==> Matching(es, k) == if Writable(es, k) then 1 else 0
  {
    hide Entries, Put, GoodKey, Keyed, Sectioned, Scan, Matching, Writable, Reads;
    PutEntries(file, section, Some(k), None);
    var es := FileEntries(file);
    var now := FileEntries(Put(file, section, Some(k), None));
    NothingKeyed(k);
    KeyedMatching(Inside(es, section), k);
    ReadsInside(now, section, k);
    ScanMatching(Inside(now, section), k);
    if section != "" {
      SectionedInside(es, section, k);
    }
    assert GetIn(Put(file, section, Some(k), None), section, k) == Reads(now, section,
        k) by { ReadsNothing(section, k); }
  }

  lemma NothingKeyed(k: string)
    ensures Keyed([], Some(k), []) == [] && Matching([], k) == 0 && !Writable([], k)
  {
  }

  // ------------------------------------------------------------ runs of puts

  // No line has a blank before its separator.
  predicate Tidy(es: seq<string>) {
    forall e :: e in es ==> TidyLine(e)
  }

  predicate TidyLine(e: string) {
    Separator(e) < |e| ==> SkipTrailing(e[..Separator(e)]) == e[..Separator(e)]
  }

  lemma {:induction false} TidyAgrees(es: seq<string>, key: string)
    requires Tidy(es)
    ensures Agrees(es, key)
  {
    if es != [] && !IsHeader(es[0]) {
      assert TidyLine(es[0]);
      TidyAgrees(es[1..], key);
    }
  }

  lemma {:induction false} TidyAgreesIn(es: seq<string>, section: string, key: string)
    requires Tidy(es)
    ensures AgreesIn(es, section, key)
  {
    TidyAgrees(es, key);
    if es != [] {
      TidyAgreesIn(es[1..], section, key);
      TidyAgrees(es[1..], key);
    }
  }

  lemma {:induction false} TidyKeyed(es: seq<string>, k: string, v: string)
    requires Tidy(es) && GoodKey(k)
    ensures Tidy(Keyed(es, Some(k), [KeyEntry(k, v)]))
  {
    hide TidyLine, KeyEntry, GoodKey, WriterMatches, IsHeader;
    TidyEntry(k, v);
    if es != [] && !IsHeader(es[0]) && !WriterMatches(es[0], k) {
      TidyKeyed(es[1..], k, v);
    }
  }

  lemma TidyEntry(k: string, v: string)
    requires GoodKey(k)
    ensures TidyLine(KeyEntry(k, v))
  {
    KeyEntryReads(k, v);
    assert SkipTrailing(k) == k;
  }

  // A header has a separator only if the section's name has one.
  predicate TidySection(section: string) {
    section == "" || TidyLine(HeaderEntry(section))
  }

  lemma {:induction false} TidySectioned(es: seq<string>, section: string, k: string, v: string)
    requires Tidy(es) && GoodKey(k) && section != "" && TidySection(section)
    ensures Tidy(Sectioned(es, section, Some(k), [KeyEntry(k, v)]))
  {
    hide TidyLine, KeyEntry, GoodKey, HeaderOf, HeaderEntry;
    TidyEntry(k, v);
    if es != [] {
      if HeaderOf(es[0], section) {
        TidyKeyed(es[1..], k, v);
      } else {
        TidySectioned(es[1..], section, k, v);
      }
    }
  }

  datatype Setting = Setting(section: string, key: string, value: string)

  predicate GoodSetting(p: Setting) {
    GoodSection(p.section) && TidySection(p.section) && GoodLine(p.key, p.value) && Unquote(Trim(p.value)) == p.value
  }

  function PutAll(file: Option<string>, puts: seq<Setting>): Option<string> {
    if puts == [] then file
    else
      var before := PutAll(file, puts[..|puts| - 1]);
      var p := puts[|puts| - 1];
      Put(before, p.section, Some(p.key), Some(p.value))
  }

  // The last value put for a key, or else what the file said at first.
  function Expected(file: Option<string>, puts: seq<Setting>, section: string, key: string): Option<string> {
    if puts == [] then GetIn(file, section, key)
    else
      var p := puts[|puts| - 1];
      if p.section == section && p.key == key then Some(p.value)
      else Expected(file, puts[..|puts| - 1], section, key)
  }

  // After any run of puts every key of every section reads as the map says.
  lemma {:induction false} RunReads(file: Option<string>, puts: seq<Setting>, section: string, key: string)
    requires FileFits(file) && Tidy(FileEntries(file))
    requires forall p :: p in puts ==> GoodSetting(p)
    ensures FileFits(PutAll(file, puts)) && Tidy(FileEntries(PutAll(file, puts)))
    ensures GetIn(PutAll(file, puts), section, key) == Expected(file, puts, section, key)
  {
    hide Put, FileFits, Tidy, GoodSection, GoodLine, GetIn, Trim, Unquote, TidySection, FileEntries, AgreesIn;
    if puts != [] {
      RunReads(file, puts[..|puts| - 1], section, key);
      var before := PutAll(file, puts[..|puts| - 1]);
      var p := puts[|puts| - 1];
      assert GoodSetting(p);
      PutTidy(before, p);
      if p.section == section && p.key == key {
        TidyAgreesIn(FileEntries(before), section, key);
        PutThenGet(before, section, key, p.value);
      } else {
        GoodPutIs(p);
        OthersUnchanged(before, p.section, Some(p.key), Some(p.value), section, key);
      }
    }
  }

  lemma GoodPutIs(p: Setting)
    requires GoodSetting(p)
    ensures GoodPut(p.section, Some(p.key), Some(p.value))
  {
  }

  lemma PutTidy(file: Option<string>, p: Setting)
    requires FileFits(file) && Tidy(FileEntries(file)) && GoodSetting(p)
    ensures var now := Put(file, p.section, Some(p.key), Some(p.value)); FileFits(now) && Tidy(FileEntries(now))
  {
    hide Entries, Put, KeyText, GoodKey, KeyEntry, Keyed, Sectioned, Tidy, Fits, NothingToDo;
    PutEntries(file, p.section, Some(p.key), Some(p.value));
    if p.section == "" {
      TidyKeyed(FileEntries(file), p.key, p.value);
    } else {
      TidySectioned(FileEntries(file), p.section, p.key, p.value);
    }
  }
}
