// Runs of puts and erasures: what any key reads as afterwards.
module IniRuns {
  import opened Wrappers
  import opened IniText
  import opened Ini
  import opened IniMeaning
  import opened IniMap

  // A line the reader takes for a key, and whether the writer takes it too.
  datatype Seen = Seen(value: string, exact: bool)

  function SeenIn(e: string, key: string): Seen
    requires ReaderMatches(e, key)
  {
    Seen(ValueIn(e), WriterMatches(e, key))
  }

  // The lines for a key above the next header.
  function Column(es: seq<string>, key: string): seq<Seen> {
    if es == [] || IsHeader(es[0]) then []
    else
      (if ReaderMatches(es[0], key) then [SeenIn(es[0], key)] else [])
      + Column(es[1..], key)
  }

  // The same under each header of the section.
  function Named(es: seq<string>, section: string, key: string): seq<seq<Seen>> {
    if es == [] then []
    else (if HeaderOf(es[0], section) then [Column(es[1..], key)] else []) + Named(es[1..], section, key)
  }

  // All that matters for a key of a section; no name stands for the top of the file.
  function Columns(es: seq<string>, section: string, key: string): seq<seq<Seen>> {
    if section == "" then [Column(es, key)] else Named(es, section, key)
  }

  function Top(cols: seq<seq<Seen>>): Option<string> {
    if cols != [] && cols[0] != [] then Some(cols[0][0].value) else None
  }

  datatype Change =
    | PutKey(section: string, key: string, value: string)
    | EraseKey(section: string, key: string)
    | EraseSection(section: string)

  predicate GoodChange(c: Change) {
    match c
    case PutKey(s, k, v) => GoodSection(s) && GoodLine(k, v)
    case EraseKey(s, k) => GoodSection(s) && GoodKey(k)
    case EraseSection(s) => GoodSection(s)
  }

  function Changed(file: Option<string>, c: Change): Option<string> {
    match c
    case PutKey(s, k, v) => Put(file, s, Some(k), Some(v))
    case EraseKey(s, k) => Put(file, s, Some(k), None)
    case EraseSection(s) => Put(file, s, None, None)
  }

  // The first line the writer takes for the key gives way to the new one.
  function Placed(col: seq<Seen>, line: seq<Seen>): seq<Seen> {
    if col == [] then line
    else if col[0].exact then line + col[1..]
    else [col[0]] + Placed(col[1..], line)
  }

  // What a change makes of a key's lines.
  function Stepped(cols: seq<seq<Seen>>, c: Change, section: string, key: string): seq<seq<Seen>> {
    if c.section != section then cols
    else
      match c
      case PutKey(_, k, v) =>
        if k != key then (if cols == [] then [[]] else cols)
        else if Top(cols) == Some(v) then cols
        else if cols == [] then [[Seen(Unquote(Trim(v)), true)]]
        else [Placed(cols[0], [Seen(Unquote(Trim(v)), true)])] + cols[1..]
      case EraseKey(_, k) => if k != key || cols == [] then cols else [Placed(cols[0], [])] + cols[1..]
      case EraseSection(_) => if section == "" then [[]] else if cols == [] then [] else cols[1..]
  }

  // ------------------------------------------------------------- one change

  lemma {:induction false} ScanTop(es: seq<string>, key: string)
    ensures Scan(es, key) == Top([Column(es, key)])
  {
    hide ReaderMatches, WriterMatches, IsHeader, ValueIn;
    if es != [] && !IsHeader(es[0]) {
      ScanTop(es[1..], key);
    }
  }

  // Reading sees the first line.
  lemma {:induction false} ReadsTop(es: seq<string>, section: string, key: string)
    ensures Reads(es, section, key) == Top(Columns(es, section, key))
  {
    hide Column, HeaderOf, Scan;
    if section == "" {
      ScanTop(es, key);
    } else if es != [] {
      if HeaderOf(es[0], section) {
        ScanTop(es[1..], key);
      } else {
        ReadsTop(es[1..], section, key);
      }
    }
  }

  lemma ColumnFirst(e: string, es: seq<string>, key: string)
    requires !IsHeader(e)
    ensures Column([e] + es, key)
            == (if ReaderMatches(e, key) then [SeenIn(e, key)] else []) + Column(es, key)
  {
    assert ([e] + es)[1..] == es;
  }

  lemma KeyLine(k: string, v: string)
    requires GoodKey(k)
    ensures var e := KeyEntry(k, v); !IsHeader(e) && Separator(e) < |e| && ValueIn(e) == Unquote(Trim(v))
    ensures ReaderMatches(KeyEntry(k, v), k) && WriterMatches(KeyEntry(k, v), k)
    ensures forall other :: ReaderMatches(KeyEntry(k, v), other) ==> other == k
    ensures forall section :: !HeaderOf(KeyEntry(k, v), section)
  {
    KeyEntryReads(k, v);
  }

  function LineFor(k: string, value: Option<string>, key: string): seq<Seen> {
    if k == key && value.Some? then [Seen(Unquote(Trim(value.value)), true)] else []
  }

  // The line a change adds, in front of what follows.
  lemma AddedColumn(k: string, value: Option<string>, es: seq<string>, key: string)
    requires GoodKey(k)
    ensures Column(Added(Some(k), value) + es, key) == LineFor(k, value, key) + Column(es, key)
  {
    hide ReaderMatches, WriterMatches, IsHeader, ValueIn, KeyEntry, Column;
    if value.Some? {
      KeyLine(k, value.value);
      ColumnFirst(KeyEntry(k, value.value), es, key);
    } else {
      assert [] + es == es;
    }
  }

  lemma StopsAtHeader(es: seq<string>, key: string)
    requires es == [] || IsHeader(es[0])
    ensures Column(es, key) == []
  {
  }

  lemma {:induction false} KeyedColumn(es: seq<string>, k: string, value: Option<string>, key: string)
    requires GoodKey(k)
    ensures Column(Keyed(es, Some(k), Added(Some(k), value)), key)
            == if k == key then Placed(Column(es, k), LineFor(k, value, k)) else Column(es, key)
  {
    hide ReaderMatches, WriterMatches, IsHeader, ValueIn, Added, LineFor, Column;
    var line := Added(Some(k), value);
    if es == [] || IsHeader(es[0]) {
      AddedColumn(k, value, es, key);
      assert line + [] == line;
      StopsAtHeader(es, key);
      NoLine(k, value, key);
      StopsAtHeader([], key);
    } else {
      WriterReader(es[0], k);
      ColumnFirst(es[0], es[1..], key);
      assert [es[0]] + es[1..] == es;
      if WriterMatches(es[0], k) {
        AddedColumn(k, value, es[1..], key);
        NoLine(k, value, key);
      } else {
        KeyedColumn(es[1..], k, value, key);
        ColumnFirst(es[0], Keyed(es[1..], Some(k), line), key);
        var rest := Keyed(es[1..], Some(k), line);
        assert Keyed(es, Some(k), line) == [es[0]] + rest;
        if key == k {
          if ReaderMatches(es[0], k) {
            PlacedLater(SeenIn(es[0], k), Column(es[1..], k), LineFor(k, value, k));
            assert Column(es, key) == [SeenIn(es[0], k)] + Column(es[1..], k);
          } else {
            assert Column(es, key) == Column(es[1..], key);
            assert Column([es[0]] + rest, key) == Column(rest, key);
          }
        }
      }
    }
  }

  lemma PlacedLater(seen: Seen, col: seq<Seen>, line: seq<Seen>)
    requires !seen.exact
    ensures Placed([seen] + col, line) == [seen] + Placed(col, line)
  {
    assert ([seen] + col)[1..] == col;
  }

  lemma NoLine(k: string, value: Option<string>, key: string)
    ensures k != key ==> LineFor(k, value, key) == []
  {
  }

  lemma {:induction false} ErasedColumn(es: seq<string>, key: string)
    ensures Column(Keyed(es, None, []), key) == []
  {
    hide ReaderMatches, WriterMatches, IsHeader, ValueIn;
    if es != [] {
      if IsHeader(es[0]) {
        assert [] + es == es;
      } else {
        ErasedColumn(es[1..], key);
        assert [] + Keyed(es[1..], None, []) == Keyed(es[1..], None, []);
      }
    }
  }

  lemma NamedFirst(e: string, es: seq<string>, section: string, key: string)
    ensures Named([e] + es, section, key)
            == (if HeaderOf(e, section) then [Column(es, key)] else []) + Named(es, section, key)
  {
    assert ([e] + es)[1..] == es;
  }

  // What follows the next header is as before.
  lemma {:induction false} KeyedNamed(es: seq<string>, k: Option<string>, value: Option<string>, section: string,
                                      key: string)
    requires k.Some? ==> GoodKey(k.value)
    ensures Named(Keyed(es, k, Added(k, value)), section, key) == Named(es, section, key)
  {
    hide WriterMatches, HeaderOf, Column, KeyEntry, IsHeader;
    var line := Added(k, value);
    if es == [] || IsHeader(es[0]) {
      AddedNamed(k, value, es, section, key);
      assert line + [] == line;
    } else {
      NoHeader(es[0], section);
      NamedFirst(es[0], es[1..], section, key);
      assert [es[0]] + es[1..] == es;
      if k.Some? && WriterMatches(es[0], k.value) {
        AddedNamed(k, value, es[1..], section, key);
      } else {
        KeyedNamed(es[1..], k, value, section, key);
        NamedFirst(es[0], Keyed(es[1..], k, line), section, key);
        assert [] + Keyed(es[1..], k, line) == Keyed(es[1..], k, line);
      }
    }
  }

  lemma AddedNamed(k: Option<string>, value: Option<string>, es: seq<string>, section: string, key: string)
    requires k.Some? ==> GoodKey(k.value)
    ensures Named(Added(k, value) + es, section, key) == Named(es, section, key)
  {
    hide HeaderOf, Column, KeyEntry, Named;
    if k.Some? && value.Some? {
      KeyLine(k.value, value.value);
      NamedFirst(KeyEntry(k.value, value.value), es, section, key);
    } else {
      assert [] + es == es;
    }
  }

  // A change in one section leaves the others.
  lemma {:induction false} SectionedOthers(es: seq<string>, section: string, k: Option<string>, value: Option<string>,
                                           other: string, key: string)
    requires (k.Some? ==> GoodKey(k.value)) && section != "" && ']' !in section && other != section
    ensures Named(Sectioned(es, section, k, Added(k, value)), other, key) == Named(es, other, key)
    ensures Column(Sectioned(es, section, k, Added(k, value)), key) == Column(es, key)
  {
    hide HeaderOf, HeaderEntry, Added, Keyed, ReaderMatches, WriterMatches, ValueIn;
    var line := Added(k, value);
    if es == [] {
      if line != [] {
        NewHeader(section, k, value, other, key);
      }
    } else {
      NamedFirst(es[0], es[1..], other, key);
      assert [es[0]] + es[1..] == es;
      if HeaderOf(es[0], section) {
        OneHeader(es[0], section, other);
        KeyedNamed(es[1..], k, value, other, key);
        NamedFirst(es[0], Keyed(es[1..], k, line), other, key);
        StopsAtHeader(es, key);
        if k.None? {
          assert line == [] by { NothingAdded(value); }
          ErasedColumn(es[1..], key);
          assert [] + Keyed(es[1..], k, line) == Keyed(es[1..], k, line);
        } else {
          StopsAtHeader([es[0]] + Keyed(es[1..], k, line), key);
        }
      } else {
        SectionedOthers(es[1..], section, k, value, other, key);
        var now := Sectioned(es[1..], section, k, line);
        NamedFirst(es[0], now, other, key);
        assert ([es[0]] + now)[1..] == now;
      }
    }
  }

  lemma NothingAdded(value: Option<string>)
    ensures Added(None, value) == []
  {
  }

  lemma NewHeader(section: string, k: Option<string>, value: Option<string>, other: string, key: string)
    requires (k.Some? ==> GoodKey(k.value)) && ']' !in section && other != section
    ensures Named([HeaderEntry(section)] + Added(k, value), other, key) == []
    ensures Column([HeaderEntry(section)] + Added(k, value), key) == []
  {
    hide HeaderOf, HeaderEntry, Added, Named;
    HeaderEntryIs(section, other);
    var line := Added(k, value);
    NamedFirst(HeaderEntry(section), line, other, key);
    AddedNamed(k, value, [], other, key);
    assert line + [] == line;
    assert Named([], other, key) == [] by { NothingNamed(other, key); }
  }

  lemma NothingNamed(section: string, key: string)
    ensures Named([], section, key) == [] && Column([], key) == []
  {
  }

  // The first place of a section with a key's line in place, or a new one.
  function Touched(cols: seq<seq<Seen>>, k: string, value: Option<string>, key: string): seq<seq<Seen>> {
    if cols == [] then (if value.Some? then [LineFor(k, value, key)] else [])
    else [if k == key then Placed(cols[0], LineFor(k, value, k)) else cols[0]] + cols[1..]
  }

  lemma TouchedFirst(col: seq<Seen>, cols: seq<seq<Seen>>, k: string, value: Option<string>, key: string)
    ensures Touched([col] + cols, k, value, key)
            == [if k == key then Placed(col, LineFor(k, value, k)) else col] + cols
  {
    assert ([col] + cols)[1..] == cols;
  }

  // A key's line in a section that the file has, or gets.
  lemma {:induction false} SectionedNamed(es: seq<string>, section: string, k: string, value: Option<string>,
                                          key: string)
    requires GoodKey(k) && section != "" && ']' !in section
    ensures Named(Sectioned(es, section, Some(k), Added(Some(k), value)), section, key)
            == Touched(Named(es, section, key), k, value, key)
  {
    hide HeaderOf, HeaderEntry, Keyed, Column, LineFor, Placed, Named, GoodKey;
    var line := Added(Some(k), value);
    if es == [] {
      NothingNamed(section, key);
      if value.Some? {
        SectionAdded(section, k, value, key);
      }
    } else {
      NamedFirst(es[0], es[1..], section, key);
      assert [es[0]] + es[1..] == es;
      hide Touched, Added;
      if HeaderOf(es[0], section) {
        KeyedNamed(es[1..], Some(k), value, section, key);
        KeyedColumn(es[1..], k, value, key);
        NamedFirst(es[0], Keyed(es[1..], Some(k), line), section, key);
        TouchedFirst(Column(es[1..], key), Named(es[1..], section, key), k, value, key);
      } else {
        SectionedNamed(es[1..], section, k, value, key);
        NamedFirst(es[0], Sectioned(es[1..], section, Some(k), line), section, key);
        assert [] + Named(es[1..], section, key) == Named(es[1..], section, key);
      }
    }
  }

  lemma SectionAdded(section: string, k: string, value: Option<string>, key: string)
    requires GoodKey(k) && section != "" && ']' !in section
    ensures Named([HeaderEntry(section)] + Added(Some(k), value), section, key) == [LineFor(k, value, key)]
  {
    hide HeaderOf, HeaderEntry, Column, LineFor, Named, Added, GoodKey;
    var line := Added(Some(k), value);
    HeaderEntryIs(section, section);
    NamedFirst(HeaderEntry(section), line, section, key);
    AddedNamed(Some(k), value, [], section, key);
    AddedColumn(k, value, [], key);
    NothingNamed(section, key);
    assert line + [] == line && LineFor(k, value, key) + [] == LineFor(k, value, key);
  }

  lemma {:induction false} SectionErased(es: seq<string>, section: string, key: string)
    requires section != ""
    ensures var cols := Named(es, section, key);
            Named(Sectioned(es, section, None, []), section, key) == if cols == [] then [] else cols[1..]
  {
    hide HeaderOf, HeaderEntry, Keyed, Column;
    if es != [] {
      NamedFirst(es[0], es[1..], section, key);
      assert [es[0]] + es[1..] == es;
      if HeaderOf(es[0], section) {
        NothingAdded(None);
        KeyedNamed(es[1..], None, None, section, key);
        assert [] + Keyed(es[1..], None, []) == Keyed(es[1..], None, []);
      } else {
        SectionErased(es[1..], section, key);
        NamedFirst(es[0], Sectioned(es[1..], section, None, []), section, key);
      }
    }
  }

  function KeyOf(c: Change): Option<string> {
    if c.EraseSection? then None else Some(c.key)
  }

  function ValueOf(c: Change): Option<string> {
    if c.PutKey? then Some(c.value) else None
  }

  function Rewritten(es: seq<string>, c: Change): seq<string> {
    if c.section == "" then Keyed(es, KeyOf(c), Added(KeyOf(c), ValueOf(c)))
    else Sectioned(es, c.section, KeyOf(c), Added(KeyOf(c), ValueOf(c)))
  }

  // What a rewritten file shows of a key.
  lemma RewrittenColumns(es: seq<string>, c: Change, section: string, key: string)
    requires GoodChange(c)
    requires c.PutKey? && c.section == section && c.key == key ==> Top(Columns(es, section, key)) != Some(c.value)
    ensures Columns(Rewritten(es, c), section, key) == Stepped(Columns(es, section, key), c, section, key)
  {
    hide Keyed, Sectioned, Column, Named, GoodKey, KeyEntry, Placed;
    var k, v := KeyOf(c), ValueOf(c);
    if c.section != section {
      if c.section == "" {
        KeyedNamed(es, k, v, section, key);
      } else {
        SectionedOthers(es, c.section, k, v, section, key);
      }
    } else if c.EraseSection? {
      NothingAdded(None);
      ErasedColumn(es, key);
      if section != "" {
        SectionErased(es, section, key);
      }
    } else if section == "" {
      KeyedColumn(es, c.key, v, key);
    } else {
      SectionedNamed(es, section, c.key, v, key);
    }
  }

  // One change, seen through one key.
  lemma ChangeSteps(file: Option<string>, c: Change, section: string, key: string)
    requires FileFits(file) && GoodChange(c)
    ensures FileFits(Changed(file, c))
    ensures Columns(FileEntries(Changed(file, c)), section, key)
            == Stepped(Columns(FileEntries(file), section, key), c, section, key)
  {
    hide Put, Keyed, Sectioned, Columns, Stepped, GoodKey, KeyEntry, FileFits, FileEntries, NothingToDo;
    var es := FileEntries(file);
    PutEntries(file, c.section, KeyOf(c), ValueOf(c));
    NothingDone(file, c, section, key);
    if !NothingToDo(file, c.section, KeyOf(c), ValueOf(c)) {
      RewrittenColumns(es, c, section, key);
    }
  }

  // A put of what is there changes nothing, and the lines say that it is there.
  lemma NothingDone(file: Option<string>, c: Change, section: string, key: string)
    requires GoodChange(c)
    ensures var cols := Columns(FileEntries(file), section, key);
            if NothingToDo(file, c.section, KeyOf(c), ValueOf(c)) then Stepped(cols, c, section, key) == cols
            else c.PutKey? && c.section == section && c.key == key ==> Top(cols) != Some(c.value)
  {
    hide Columns, Reads, GoodKey, Entries;
    if c.PutKey? {
      NothingToDoIs(file, c.section, c.key, c.value);
      ReadsTop(FileEntries(file), c.section, c.key);
      ReadsTop([], c.section, c.key);
      ReadsNothing(c.section, c.key);
      if c.section == section && c.key != key {
        SameSections(FileEntries(file), section, key, c.key);
      }
    }
  }

  // A section has as many places for one key as for another.
  lemma {:induction false} SameSections(es: seq<string>, section: string, key: string, other: string)
    ensures |Columns(es, section, key)| == |Columns(es, section, other)|
  {
    hide Column, HeaderOf;
    if section != "" && es != [] {
      SameSections(es[1..], section, key, other);
    }
  }

  // ----------------------------------------------------------------- all runs

  function ChangeAll(file: Option<string>, cs: seq<Change>): Option<string> {
    if cs == [] then file else Changed(ChangeAll(file, cs[..|cs| - 1]), cs[|cs| - 1])
  }

  function SteppedAll(cols: seq<seq<Seen>>, cs: seq<Change>, section: string, key: string): seq<seq<Seen>> {
    if cs == [] then cols
    else Stepped(SteppedAll(cols, cs[..|cs| - 1], section, key), cs[|cs| - 1], section, key)
  }

  // After any run of puts and erasures, on any file, a key reads as the
  // changes to its own section make of its own lines.
  lemma {:induction false} AnyRunReads(file: Option<string>, cs: seq<Change>, section: string, key: string)
    requires FileFits(file) && forall c :: c in cs ==> GoodChange(c)
    ensures FileFits(ChangeAll(file, cs))
    ensures Columns(FileEntries(ChangeAll(file, cs)), section, key)
            == SteppedAll(Columns(FileEntries(file), section, key), cs, section, key)
    ensures GetIn(ChangeAll(file, cs), section, key)
            == Top(SteppedAll(Columns(FileEntries(file), section, key), cs, section, key))
  {
    hide FileFits, FileEntries, Columns, Stepped, GoodChange, Changed, Top;
    if cs != [] {
      var before := cs[..|cs| - 1];
      AnyRunReads(file, before, section, key);
      ChangeSteps(ChangeAll(file, before), cs[|cs| - 1], section, key);
    }
    GetIsTop(ChangeAll(file, cs), section, key);
  }

  lemma GetIsTop(file: Option<string>, section: string, key: string)
    ensures GetIn(file, section, key) == Top(Columns(FileEntries(file), section, key))
  {
    hide Reads, Columns, Top;
    ReadsTop(FileEntries(file), section, key);
    ReadsNothing(section, key);
  }

  // --------------------------------------------- and where no key is repeated

  // The section stands at most once, with at most one line for the key, which
  // the writer takes for it too.
  predicate Single(cols: seq<seq<Seen>>) {
    |cols| <= 1 && (cols != [] ==> |cols[0]| <= 1 && (cols[0] != [] ==> cols[0][0].exact))
  }

  // The last change that names the key, or its whole section, decides.
  function LastSaid(said: Option<string>, cs: seq<Change>, section: string, key: string): Option<string> {
    if cs == [] then said
    else
      var c := cs[|cs| - 1];
      if c.section != section || KeyOf(c) !in {None, Some(key)}
      then LastSaid(said, cs[..|cs| - 1], section, key)
      else ValueOf(c)
  }

  lemma SingleStep(cols: seq<seq<Seen>>, c: Change, section: string, key: string)
    requires Single(cols) && (c.PutKey? ==> Unquote(Trim(c.value)) == c.value)
    ensures Single(Stepped(cols, c, section, key))
    ensures Top(Stepped(cols, c, section, key))
            == if c.section != section || KeyOf(c) !in {None, Some(key)} then Top(cols) else ValueOf(c)
  {
    hide Unquote, Trim;
  }

  // A file where the key stands once at most is a map, also under erasures.
  lemma {:induction false} AnyRunIsMap(file: Option<string>, cs: seq<Change>, section: string, key: string)
    requires FileFits(file) && forall c :: c in cs ==> GoodChange(c)
    requires forall c :: c in cs && c.PutKey? ==> Unquote(Trim(c.value)) == c.value
    requires Single(Columns(FileEntries(file), section, key))
    ensures GetIn(ChangeAll(file, cs), section, key) == LastSaid(GetIn(file, section, key), cs, section, key)
  {
    AnyRunReads(file, cs, section, key);
    GetIsTop(file, section, key);
    hide Columns, FileEntries, Top, Single, Unquote, Trim, GoodChange;
    SingleRun(Columns(FileEntries(file), section, key), cs, section, key);
  }

  lemma {:induction false} SingleRun(cols: seq<seq<Seen>>, cs: seq<Change>, section: string, key: string)
    requires Single(cols) && forall c :: c in cs && c.PutKey? ==> Unquote(Trim(c.value)) == c.value
    ensures Single(SteppedAll(cols, cs, section, key))
    ensures Top(SteppedAll(cols, cs, section, key)) == LastSaid(Top(cols), cs, section, key)
  {
    hide Top, Single, Unquote, Trim, Stepped;
    if cs != [] {
      SingleRun(cols, cs[..|cs| - 1], section, key);
      SingleStep(SteppedAll(cols, cs[..|cs| - 1], section, key), cs[|cs| - 1], section, key);
    }
  }

  // The file of the one line "k = a": the key is erased, and a is still read.
  lemma BlankDefeatsErase()
    ensures var file := Some("k = a\n");
            FileFits(file) && GoodKey("k") && GetIn(Put(file, "", Some("k"), None), "", "k") == Some("a")
  {
    hide Put, Separator, ReaderMatches, WriterMatches, Find, Entries, Fits, IsHeader;
    SpacedText();
    SpacedLine();
    var file := Some("k = a\n");
    var c := EraseKey("", "k");
    ChangeSteps(file, c, "", "k");
    GetIsTop(Changed(file, c), "", "k");
    assert Column(["k = a"], "k") == [Seen("a", false)];
    assert Stepped([[Seen("a", false)]], c, "", "k") == [[Seen("a", false)]];
  }
}
