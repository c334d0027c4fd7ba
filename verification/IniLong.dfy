// Long integers as text: ini_long2str, read back with strtol.
module IniLong {
  import opened Wrappers
  import opened IniText
  import opened Ini
  import opened IniMeaning
  import opened IniMap
  import opened IniReading

  const LONG_MIN: int := -0x8000_0000_0000_0000
  const LONG_MAX: int := 0x7FFF_FFFF_FFFF_FFFF

  type Long = n: int | LONG_MIN <= n <= LONG_MAX

  // C's division and remainder by ten, which round toward zero.
  function Tenth(a: int): (q: int) {
    if a >= 0 then a / 10 else -((-a) / 10)
  }

  function LastDigit(a: int): (r: int)
    ensures a == Tenth(a) * 10 + r && Abs(r) <= 9
    ensures Abs(a) == 10 * Abs(Tenth(a)) + Abs(r)
  {
    if a >= 0 then a % 10 else -((-a) % 10)
  }

  function Abs(n: int): nat {
    if n < 0 then -n else n
  }

  predicate IsDigit(c: char) {
    '0' <= c <= '9'
  }

  function DigitValue(c: char): nat
    requires IsDigit(c)
  {
    c as int - '0' as int
  }

  predicate Digits(s: string) {
    forall i :: 0 <= i < |s| ==> IsDigit(s[i])
  }

  // The number written in s, the most significant digit first.
  function Number(s: string): (n: nat)
    requires Digits(s)
  {
    if s == "" then 0 else 10 * Number(s[..|s| - 1]) + DigitValue(s[|s| - 1])
  }

  // The number written in s, the least significant digit first.
  function Backward(s: string): (n: nat)
    requires Digits(s)
  {
    if s == "" then 0 else DigitValue(s[0]) + 10 * Backward(s[1..])
  }

  function Reversed(s: string): (r: string)
    ensures |r| == |s| && forall i :: 0 <= i < |s| ==> r[i] == s[|s| - 1 - i]
  {
    if s == "" then "" else Reversed(s[1..]) + [s[0]]
  }

  lemma {:induction false} NumberReversed(s: string)
    requires Digits(s)
    ensures Digits(Reversed(s)) && Number(Reversed(s)) == Backward(s)
  {
    if s != "" {
      NumberReversed(s[1..]);
      var r := Reversed(s);
      assert r[..|r| - 1] == Reversed(s[1..]);
    }
  }

  lemma {:induction false} BackwardMore(s: string, d: nat)
    requires Digits(s) && d <= 9
    ensures Digits(s + [('0' as int + d) as char])
    ensures Backward(s + [('0' as int + d) as char]) == Backward(s) + Power(|s|) * d
  {
    var c := ('0' as int + d) as char;
    if s == "" {
      assert "" + [c] == [c] && [c][1..] == "";
    } else {
      assert (s + [c])[1..] == s[1..] + [c];
      BackwardMore(s[1..], d);
      assert 10 * (Power(|s| - 1) * d) == Power(|s|) * d;
    }
  }

  function Power(n: nat): nat {
    if n == 0 then 1 else 10 * Power(n - 1)
  }

  // strtol in base ten: blanks, a sign, and the digits that follow, held
  // within the bounds of a long.
  function ParseLong(s: string): Long {
    var t := SkipSpace(s);
    var negative := t != "" && t[0] == '-';
    var digits := LeadingDigits(if t != "" && (t[0] == '-' || t[0] == '+') then t[1..] else t);
    var n := if negative then 0 - Number(digits) else Number(digits);
    if n < LONG_MIN then LONG_MIN else if n > LONG_MAX then LONG_MAX else n
  }

  function SkipSpace(s: string): string {
    if s == "" || !(s[0] == ' ' || '\t' <= s[0] <= '\r') then s else SkipSpace(s[1..])
  }

  function LeadingDigits(s: string): (r: string)
    ensures Digits(r)
  {
    if s == "" || !IsDigit(s[0]) then "" else [s[0]] + LeadingDigits(s[1..])
  }

  lemma {:induction false} AllDigits(s: string)
    requires Digits(s)
    ensures LeadingDigits(s) == s
  {
    if s != "" {
      AllDigits(s[1..]);
    }
  }

  // ------------------------------------------- what strtol reads, in pieces

  // The number of a text of digits, by its place values.
  lemma {:induction false} NumberPlaces(a: string, b: string)
    requires Digits(a) && Digits(b)
    ensures Digits(a + b) && Number(a + b) == Number(a) * Power(|b|) + Number(b)
  {
    if b == "" {
      assert a + b == a;
    } else {
      var n := |b| - 1;
      NumberPlaces(a, b[..n]);
      var s := a + b;
      assert s[..|s| - 1] == a + b[..n] && s[|s| - 1] == b[n];
      hide Number;
      Distribute(Number(a), Power(n), 0);
      assert Number(b) == 10 * Number(b[..n]) + DigitValue(b[n]) by { NumberLast(b); }
      assert Number(s) == 10 * Number(a + b[..n]) + DigitValue(b[n]) by { NumberLast(s); }
      assert Number(a) * Power(|b|) == 10 * (Number(a) * Power(n)) by { Tenfold(Number(a), Power(n)); }
    }
  }

  lemma NumberLast(s: string)
    requires Digits(s) && s != ""
    ensures Number(s) == 10 * Number(s[..|s| - 1]) + DigitValue(s[|s| - 1])
  {
  }

  lemma Tenfold(a: nat, p: nat)
    ensures a * (10 * p) == 10 * (a * p)
  {
  }

  lemma NumberOne(c: char)
    requires '0' <= c <= '9'
    ensures Digits([c]) && Number([c]) == c as int - '0' as int && Number("") == 0
  {
    NumberLast([c]);
    assert [c][..0] == "";
  }

  // White space to isspace: space, tab, line feed, vertical tab, form feed and
  // carriage return.
  predicate IsWhite(c: char) {
    c in {' ', '\t', '\n', 11 as char, 12 as char, '\r'}
  }

  predicate White(s: string) {
    forall i :: 0 <= i < |s| ==> IsWhite(s[i])
  }

  // The pieces strtol takes a text apart into; the rest is whatever follows.
  predicate Pieces(space: string, sign: string, digits: string, rest: string) {
    && White(space) && sign in {"", "+", "-"} && Digits(digits)
    && (rest == "" || !('0' <= rest[0] <= '9'))
    && (sign == "" && digits == "" && rest != "" ==> !IsWhite(rest[0]) && rest[0] != '+' && rest[0] != '-')
  }

  // It is the number of the digits with the sign, held between the least and
  // the largest long, and 0 without digits.
  lemma StrtolOf(space: string, sign: string, digits: string, rest: string)
    requires Pieces(space, sign, digits, rest)
    ensures var n := ParseLong(space + sign + digits + rest);
            var v: int := if sign == "-" then 0 - Number(digits) else Number(digits);
            && (-0x8000_0000_0000_0000 <= v <= 0x7FFF_FFFF_FFFF_FFFF ==> n == v)
            && (v < -0x8000_0000_0000_0000 ==> n == -0x8000_0000_0000_0000)
            && (v > 0x7FFF_FFFF_FFFF_FFFF ==> n == 0x7FFF_FFFF_FFFF_FFFF)
            && (digits == "" ==> n == 0)
  {
    hide Number, SkipSpace, LeadingDigits, Pieces;
    NumberOne('0');
    Piecewise(space, sign, digits, rest);
  }

  lemma Piecewise(space: string, sign: string, digits: string, rest: string)
    requires Pieces(space, sign, digits, rest)
    ensures var t := SkipSpace(space + sign + digits + rest);
            && (t != "" && t[0] == '-' <==> sign == "-")
            && LeadingDigits(if t != "" && (t[0] == '-' || t[0] == '+') then t[1..] else t) == digits
  {
    var after := digits + rest;
    var body := sign + after;
    assert space + sign + digits + rest == space + body;
    assert body != "" ==> !IsWhite(body[0]) by {
      if sign != "" { assert body[0] == sign[0]; } else if digits != "" { assert body[0] == digits[0]; }
    }
    SpaceSkipped(space, body);
    DigitsThen(digits, rest);
    if sign != "" {
      assert body[0] == sign[0] && body[1..] == after;
    } else {
      assert body == after;
      assert digits != "" ==> body[0] == digits[0];
    }
  }

  lemma {:induction false} SpaceSkipped(space: string, body: string)
    requires White(space) && (body == "" || !IsWhite(body[0]))
    ensures SkipSpace(space + body) == body
  {
    if space == "" {
      assert space + body == body;
    } else {
      assert (space + body)[1..] == space[1..] + body;
      assert IsWhite(space[0]);
      SpaceSkipped(space[1..], body);
    }
  }

  lemma {:induction false} DigitsThen(digits: string, rest: string)
    requires Digits(digits) && (rest == "" || !('0' <= rest[0] <= '9'))
    ensures LeadingDigits(digits + rest) == digits
  {
    if digits == "" {
      assert digits + rest == rest;
    } else {
      assert (digits + rest)[1..] == digits[1..] + rest;
      DigitsThen(digits[1..], rest);
    }
  }

  // Every text comes in such pieces.
  lemma {:induction false} TakenApart(s: string)
    returns (space: string, sign: string, digits: string, rest: string)
    ensures s == space + sign + digits + rest && Pieces(space, sign, digits, rest)
  {
    if s != "" && IsWhite(s[0]) {
      space, sign, digits, rest := TakenApart(s[1..]);
      MoreSpace(s, space, sign, digits, rest);
      space := [s[0]] + space;
    } else {
      space, sign, digits, rest := Signed(s);
    }
  }

  lemma MoreSpace(s: string, space: string, sign: string, digits: string, rest: string)
    requires s != "" && IsWhite(s[0]) && s[1..] == space + sign + digits + rest && Pieces(space, sign, digits, rest)
    ensures s == [s[0]] + space + sign + digits + rest && Pieces([s[0]] + space, sign, digits, rest)
  {
    assert s == [s[0]] + s[1..] == [s[0]] + (space + sign + digits + rest);
  }

  lemma Signed(s: string) returns (space: string, sign: string, digits: string, rest: string)
    requires s == "" || !IsWhite(s[0])
    ensures s == space + sign + digits + rest && Pieces(space, sign, digits, rest)
  {
    space := "";
    sign := if s != "" && s[0] == '+' then "+" else if s != "" && s[0] == '-' then "-" else "";
    digits, rest := SplitDigits(s[|sign|..]);
    assert s == sign + s[|sign|..] == "" + sign + digits + rest;
    assert sign == "" && digits == "" ==> rest == s;
  }

  lemma {:induction false} SplitDigits(s: string) returns (digits: string, rest: string)
    ensures s == digits + rest && Digits(digits) && (rest == "" || !('0' <= rest[0] <= '9'))
  {
    if s == "" || !IsDigit(s[0]) {
      digits, rest := "", s;
    } else {
      digits, rest := SplitDigits(s[1..]);
      digits := [s[0]] + digits;
      assert s == [s[0]] + s[1..];
    }
  }

  // The text of a number: a sign and its digits.
  ghost predicate Writes(s: string, n: int) {
    exists digits :: digits != "" && Digits(digits) && Number(digits) == Abs(n)
                     && s == (if n < 0 then "-" else "") + digits
  }

  lemma ParseWritten(s: string, n: Long)
    requires Writes(s, n)
    ensures ParseLong(s) == n
  {
    var digits :| digits != "" && Digits(digits) && Number(digits) == Abs(n)
                  && s == (if n < 0 then "-" else "") + digits;
    assert IsDigit(digits[0]);
    AllDigits(digits);
    if n < 0 {
      assert s[0] == '-' && s[1..] == digits;
    } else {
      assert s == digits;
    }
    assert SkipSpace(s) == s;
  }

  // Exchanges the characters of str[..n] end for end.
  method StringReverse(str: array<char>, n: nat)
    requires n <= str.Length
    modifies str
    ensures str[..n] == Reversed(old(str[..n])) && str[n..] == old(str[n..])
  {
    var i, j := 0, n - 1;
    while i < j
      invariant 0 <= i <= n && j == n - 1 - i && -1 <= j
      invariant forall k :: 0 <= k < i ==> str[k] == old(str[n - 1 - k]) && str[n - 1 - k] == old(str[k])
      invariant forall k :: i <= k <= j ==> str[k] == old(str[k])
      invariant forall k :: n <= k < str.Length ==> str[k] == old(str[k])
    {
      str[i], str[j] := str[j], str[i];
      i, j := i + 1, j - 1;
    }
    ghost var r := Reversed(old(str[..n]));
    assert forall k :: 0 <= k < n ==> r[k] == old(str[n - 1 - k]);
    assert str[..n] == r;
  }

  lemma {:induction false} ReversedMore(s: string, c: char)
    ensures Reversed(s + [c]) == [c] + Reversed(s)
  {
    if s == "" {
      assert "" + [c] == [c] && [c][1..] == "";
    } else {
      assert (s + [c])[1..] == s[1..] + [c];
      ReversedMore(s[1..], c);
    }
  }

  // The digits of a long, the last one first.
  method BackwardDigits(value: Long, str: array<char>) returns (i: nat)
    requires str.Length >= 32
    modifies str
    ensures 1 <= i <= 19 && Digits(str[..i]) && Backward(str[..i]) == Abs(value)
  {
    hide Tenth, LastDigit, Backward, Power;
    i := 0;
    var v: int := value;
    PowerOf19();
    PowerMore(0);
    NothingBackward();
    while true
      invariant 0 <= i <= 18
      invariant Digits(str[..i])
      invariant Backward(str[..i]) + Power(i) * Abs(v) == Abs(value)
      invariant Abs(v) < Power(19 - i) && (i > 0 ==> v != 0)
      decreases Abs(v)
    {
      var d := LastDigit(v);
      ghost var was := str[..i];
      str[i] := ('0' as int + Abs(d)) as char;
      NextDigit(was, v, d, str[i], Abs(value));
      assert str[..i + 1] == was + [str[i]];
      i := i + 1;
      v := Tenth(v);
      if v == 0 {
        return;
      }
    }
  }

  // The text of a long; n is its length, the terminator not counted.
  method Long2Str(value: Long, str: array<char>) returns (n: nat)
    requires str.Length >= 32
    modifies str
    ensures n <= 20 && Writes(str[..n], value)
  {
    n := BackwardDigits(value, str);
    ghost var backward := str[..n];
    NumberReversed(backward);
    if value < 0 {
      str[n] := '-';
      n := n + 1;
      assert str[..n] == backward + ['-'];
      ReversedMore(backward, '-');
    }
    StringReverse(str, n);
    assert str[..n] == (if value < 0 then "-" else "") + Reversed(backward);
  }

  lemma NextDigit(s: string, v: int, d: int, c: char, total: nat)
    requires Digits(s) && d == LastDigit(v) && c == ('0' as int + Abs(d)) as char
    requires Backward(s) + Power(|s|) * Abs(v) == total
    ensures Digits(s + [c])
    ensures Backward(s + [c]) + Power(|s| + 1) * Abs(Tenth(v)) == total
    ensures |s| < 19 && Abs(v) < Power(19 - |s|) ==>
              Abs(Tenth(v)) < Power(18 - |s|) && (Tenth(v) != 0 ==> |s| < 18)
  {
    BackwardMore(s, Abs(d));
    hide Tenth, LastDigit, Backward, Power;
    PowerMore(|s|);
    Distribute(Power(|s|), Abs(Tenth(v)), Abs(d));
    if |s| < 19 {
      PowerMore(18 - |s|);
    }
  }

  lemma NothingBackward()
    ensures Backward("") == 0
  {
  }

  lemma PowerMore(n: nat)
    ensures Power(n + 1) == 10 * Power(n) && Power(0) == 1
  {
  }

  lemma Distribute(p: nat, q: nat, r: nat)
    ensures p * (10 * q + r) == (10 * p) * q + p * r
  {
  }

  lemma PowerOf19()
    ensures Power(19) == 10_000_000_000_000_000_000
  {
    assert Power(5) == 100_000;
    assert Power(10) == 10_000_000_000;
    assert Power(15) == 1_000_000_000_000_000;
  }

  // ini_putl, and what ini_getl makes of the file: a buffer of 64, and the
  // default if nothing was read.
  method Putl(file: Option<string>, section: string, key: string, value: Long) returns (out: Option<string>)
    ensures exists text :: Writes(text, value) && |text| <= 20 && out == Put(file, section, Some(key), Some(text))
  {
    var str := new char[32];
    var n := Long2Str(value, str);
    var text := str[..n];
    out := Puts(file, section, Some(key), Some(text));
  }

  method Getl(file: Option<string>, section: string, key: string, byDefault: Long) returns (n: Long)
    ensures n == LongIn(GetIn(file, section, key), byDefault)
  {
    var buffer := Gets(file, section, key, "", 64);
    n := if |buffer| == 0 then byDefault else ParseLong(buffer);
  }

  function LongIn(read: Option<string>, byDefault: Long): Long {
    match read
    case None => byDefault
    case Some(v) => if Cut(v, 63) == "" then byDefault else ParseLong(Cut(v, 63))
  }

  // Whatever text of the number was put, the number is read back: every long,
  // the most negative one too.
  lemma PutlThenGetl(file: Option<string>, section: string, key: string, value: Long, text: string, byDefault: Long)
    requires FileFits(file) && GoodSection(section) && AgreesIn(FileEntries(file), section, key)
    requires Writes(text, value) && |text| <= 20
    requires GoodKey(key) && '\n' !in key && |key| + 20 <= BUFFER_SIZE - 4
    ensures LongIn(GetIn(Put(file, section, Some(key), Some(text)), section, key), byDefault) == value
  {
    WrittenPlain(text, value);
    ParseWritten(text, value);
    PutThenGet(file, section, key, text);
  }

  lemma WrittenPlain(s: string, n: int)
    requires Writes(s, n)
    ensures s != "" && '\n' !in s && Unquote(Trim(s)) == s
  {
    var digits :| digits != "" && Digits(digits) && Number(digits) == Abs(n)
                  && s == (if n < 0 then "-" else "") + digits;
    assert IsDigit(digits[0]) && IsDigit(digits[|digits| - 1]);
    assert s[|s| - 1] == digits[|digits| - 1];
    assert SkipLeading(s) == s && SkipTrailing(s) == s;
  }

  // Put and get one after the other.
  method PutGetl(file: Option<string>, section: string, key: string, value: Long, byDefault: Long)
    returns (out: Option<string>, n: Long)
    requires FileFits(file) && GoodSection(section) && AgreesIn(FileEntries(file), section, key)
    requires GoodKey(key) && '\n' !in key && |key| + 20 <= BUFFER_SIZE - 4
    ensures n == value
  {
    out := Putl(file, section, key, value);
    ghost var text :| Writes(text, value) && |text| <= 20 && out == Put(file, section, Some(key), Some(text));
    PutlThenGetl(file, section, key, value, text, byDefault);
    n := Getl(out, section, key, byDefault);
  }

  // A long that stands in a file, whatever follows its digits.
  lemma GetlReads(file: Option<string>, section: string, key: string, byDefault: Long,
                  space: string, sign: string, digits: string, rest: string)
    requires Pieces(space, sign, digits, rest) && digits != ""
    requires GetIn(file, section, key) == Some(space + sign + digits + rest)
    requires |space + sign + digits + rest| <= 63
    ensures var n := LongIn(GetIn(file, section, key), byDefault);
            var v: int := if sign == "-" then 0 - Number(digits) else Number(digits);
            LONG_MIN <= v <= LONG_MAX ==> n == v
  {
    var text := space + sign + digits + rest;
    StrtolOf(space, sign, digits, rest);
    hide ParseLong, Number;
    assert |text| > 0 && Cut(text, 63) == text;
  }

  // Without a value, or with an empty one, it is the default.
  lemma NothingReads(file: Option<string>, section: string, key: string, byDefault: Long)
    requires GetIn(file, section, key) in {None, Some("")}
    ensures LongIn(GetIn(file, section, key), byDefault) == byDefault
  {
  }

  // The first lines of conf/cwmp.conf, whatever follows them: the value ends
  // in a semicolon, and the long is 1.
  lemma EnableReads(rest: seq<string>, byDefault: Long)
    requires forall line :: line in rest ==> LineFits(line)
    ensures var file := Some(FileText(["[cwmp]", "enable=1;"] + rest));
            GetIn(file, "cwmp", "enable") == Some("1;") && LongIn(GetIn(file, "cwmp", "enable"), byDefault) == 1
  {
    hide FileText, GetIn, LongIn, Says, ParseLong;
    var lines := ["[cwmp]", "enable=1;"] + rest;
    EnableSaid(rest);
    FileSays(lines, "cwmp", "enable", "1;");
    NumberOne('1');
    assert "" + "" + "1" + ";" == "1;";
    GetlReads(Some(FileText(lines)), "cwmp", "enable", byDefault, "", "", "1", ";");
  }

  lemma EnableSaid(rest: seq<string>)
    ensures Says(["[cwmp]", "enable=1;"] + rest, "cwmp", "enable", "1;")
  {
    var lines := ["[cwmp]", "enable=1;"] + rest;
    assert Opens("[cwmp]", "", "cwmp" + "]" + "") && HeaderLine("[cwmp]", "cwmp");
    assert StartsAt(lines, "cwmp", 0);
    assert Spells("enable=1;", "", "enable", "", "=", "", "1;", "") && Bare("1;", "1;");
    assert KeyLine("enable=1;", "enable", "1;");
    AnyHeaderRead("enable=1;");
    NoBracket();
    assert lines[0 + 1..][0] == "enable=1;";
    assert FoundAt(lines[0 + 1..], "enable", "1;", 0);
  }

  lemma NoBracket()
    ensures !IsHeader(Trim("enable=1;"))
  {
    assert SkipLeading("enable=1;") == "enable=1;" == SkipTrailing("enable=1;");
  }
}
