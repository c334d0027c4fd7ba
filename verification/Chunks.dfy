// Chunked output (libcwmp/src/buffer.c): a list of fixed-size buffers that
// holds one sequence of bytes.
module Chunks {

  const BUFFER_SIZE: nat := 1024

  class Buffer {
    var written: nat
    var read: nat
    const bytes: array<char>
    var next: Buffer?

    // The part written so far.
    ghost predicate Valid()
      reads this
    {
      bytes.Length == BUFFER_SIZE + 1 && written <= BUFFER_SIZE && read == 0
    }

    ghost function Content(): (s: string)
      reads this, bytes
      requires Valid()
    {
      bytes[..written]
    }

    // cwmp_buffer_create
    constructor ()
      ensures Valid() && written == 0 && next == null && fresh(bytes)
    {
      bytes := new char[BUFFER_SIZE + 1](_ => 0 as char);
      written, read, next := 0, 0, null;
    }

    method WriteBytes(val: string)
      requires Valid()
      modifies this`written, bytes
      ensures Valid()
      ensures Content() == old(Content()) + if |val| <= BUFFER_SIZE - old(written) then val else ""
    {
      if |val| > BUFFER_SIZE - written {
        return;
      }
      var i := 0;
      while i < |val|
        invariant 0 <= i <= |val| && written == old(written)
        invariant bytes[..written + i] == old(Content()) + val[..i]
      {
        bytes[written + i] := val[i];
        assert bytes[..written + i + 1] == bytes[..written + i] + [val[i]];
        assert val[..i + 1] == val[..i] + [val[i]];
        i := i + 1;
      }
      written := written + |val|;
    }
  }

  predicate NulFree(s: string) {
    0 as char !in s
  }

  // strncpy: what n bytes become, padded after a terminator.
  function Strncpy(s: string, n: nat): (r: string)
    requires n <= |s|
    ensures |r| == n
    ensures NulFree(s) ==> r == s[..n]
  {
    if n == 0 then ""
    else if s[0] == 0 as char then seq(n, _ => 0 as char)
    else [s[0]] + Strncpy(s[1..], n - 1)
  }

  lemma Sliced(s: string, at: nat, n: nat)
    requires at + n <= |s|
    ensures s[..at + n] == s[..at] + s[at..at + n]
  {
  }

  function Concat(parts: seq<string>): string {
    if parts == [] then "" else Concat(parts[..|parts| - 1]) + parts[|parts| - 1]
  }

  // Every part but the last is a full buffer.
  predicate Packed(parts: seq<string>) {
    forall i :: 0 <= i < |parts| - 1 ==> |parts[i]| == BUFFER_SIZE
  }

  lemma OpenedPart(parts: seq<string>)
    requires Packed(parts) && (parts != [] ==> |parts[|parts| - 1]| == BUFFER_SIZE)
    ensures Packed(parts + [""]) && Concat(parts + [""]) == Concat(parts)
  {
    assert (parts + [""])[..|parts|] == parts;
  }

  lemma LongerPart(parts: seq<string>, piece: string)
    requires parts != [] && Packed(parts)
    ensures var n := |parts| - 1;
            Packed(parts[n := parts[n] + piece]) && Concat(parts[n := parts[n] + piece]) == Concat(parts) + piece
  {
    var n := |parts| - 1;
    assert parts[n := parts[n] + piece][..n] == parts[..n];
  }

  // The k-th part is the k-th stretch of 1024 bytes of the whole.
  lemma {:induction false} PartsOf(parts: seq<string>, k: nat)
    requires Packed(parts) && k < |parts|
    ensures 1024 * k + |parts[k]| <= |Concat(parts)|
    ensures parts[k] == Concat(parts)[1024 * k..1024 * k + |parts[k]|]
    ensures |Concat(parts)| == 1024 * (|parts| - 1) + |parts[|parts| - 1]|
  {
    var n := |parts| - 1;
    if n > 0 {
      assert Packed(parts[..n]);
      PartsOf(parts[..n], if k < n then k else n - 1);
    }
  }

  // A NUL at or before place i in the same buffer's stretch of the text.
  ghost predicate Ended(text: string, i: int) {
    exists j :: 0 <= j < |text| && Earlier(j, i) && text[j] == 0 as char
  }

  // j comes at or before i, in the same buffer.
  predicate Earlier(j: int, i: int) {
    BUFFER_SIZE * (i / BUFFER_SIZE) <= j <= i
  }

  // What copying buffer by buffer makes of a text: from a NUL on, the rest of
  // its buffer is NULs.
  ghost function Image(text: string): (r: string)
    ensures |r| == |text|
    ensures forall i :: 0 <= i < |text| ==> r[i] == if Ended(text, i) then 0 as char else text[i]
  {
    seq(|text|, i requires 0 <= i < |text| => if Ended(text, i) then 0 as char else text[i])
  }

  // The first n bytes of the copy are those of the text exactly when nothing
  // but NULs follows a NUL in its buffer there; in particular when there is
  // none.
  lemma ImageIs(text: string, n: nat)
    requires n <= |text|
    ensures Image(text)[..n] == text[..n] <==>
              forall i, j :: 0 <= j <= i < n && Earlier(j, i) && text[j] == 0 as char ==> text[i] == 0 as char
    ensures NulFree(text[..n]) ==> Image(text)[..n] == text[..n]
  {
    hide Earlier;
    if Image(text)[..n] == text[..n] {
      forall i, j | 0 <= j <= i < n && Earlier(j, i) && text[j] == 0 as char ensures text[i] == 0 as char {
        assert Ended(text, i);
        assert Image(text)[..n][i] == text[..n][i];
      }
    } else {
      var i :| 0 <= i < n && Image(text)[i] != text[i];
      var j :| 0 <= j < |text| && Earlier(j, i) && text[j] == 0 as char;
      EarlierBound(j, i);
      assert text[..n][j] == 0 as char;
    }
  }

  lemma EarlierBound(j: int, i: int)
    requires Earlier(j, i)
    ensures j <= i
  {
  }

  lemma {:induction false} StrncpyAt(s: string, n: nat, i: nat)
    requires i < n <= |s|
    ensures Strncpy(s, n)[i] == if 0 as char in s[..i + 1] then 0 as char else s[i]
  {
    assert s[..i + 1] == [s[0]] + s[1..][..i];
    if s[0] != 0 as char && i > 0 {
      StrncpyAt(s[1..], n - 1, i - 1);
    }
  }

  // A part copied is its stretch of the image.
  lemma PartCopied(part: string, text: string, k: nat, n: nat)
    requires BUFFER_SIZE * k + |part| <= |text| && part == text[BUFFER_SIZE * k..BUFFER_SIZE * k + |part|]
    requires n <= |part| <= BUFFER_SIZE
    ensures Strncpy(part, n) == Image(text)[BUFFER_SIZE * k..BUFFER_SIZE * k + n]
  {
    hide Strncpy;
    forall i | 0 <= i < n ensures Strncpy(part, n)[i] == Image(text)[BUFFER_SIZE * k + i] {
      StrncpyAt(part, n, i);
      EndedInPart(part, text, k, i);
    }
  }

  lemma EndedInPart(part: string, text: string, k: nat, i: nat)
    requires BUFFER_SIZE * k + |part| <= |text| && part == text[BUFFER_SIZE * k..BUFFER_SIZE * k + |part|]
    requires i < |part| <= BUFFER_SIZE
    ensures Ended(text, BUFFER_SIZE * k + i) <==> 0 as char in part[..i + 1]
  {
    var from := BUFFER_SIZE * k;
    assert (from + i) / BUFFER_SIZE == k;
    if Ended(text, from + i) {
      var j :| 0 <= j < |text| && Earlier(j, from + i) && text[j] == 0 as char;
      assert part[..i + 1][j - from] == 0 as char;
    }
    if 0 as char in part[..i + 1] {
      var j :| 0 <= j <= i && part[..i + 1][j] == 0 as char;
      assert Earlier(from + j, from + i) && text[from + j] == 0 as char;
    }
  }

  // No buffer, and no buffer's memory, is in the list twice.
  ghost predicate Distinct(chain: seq<Buffer>) {
    forall i, j :: 0 <= i < j < |chain| ==> chain[i] != chain[j] && chain[i].bytes != chain[j].bytes
  }

  class Chunk {
    var buffer: Buffer?
    var current: Buffer?
    var bytes: nat

    // The buffers in order, and what each holds.
    ghost var chain: seq<Buffer>
    ghost var parts: seq<string>
    ghost var repr: set<object>

    ghost predicate Holds(i: nat)
      reads this, repr
      requires i < |chain| == |parts|
    {
      && chain[i] in repr && chain[i].bytes in repr && chain[i].Valid()
      && chain[i].next == (if i + 1 < |chain| then chain[i + 1] else null)
      && chain[i].Content() == parts[i]
    }

    ghost predicate Valid()
      reads this, repr
    {
      && this !in repr
      && |chain| == |parts| && Distinct(chain)
      && (forall i :: 0 <= i < |chain| ==> Holds(i))
      && buffer == (if chain == [] then null else chain[0])
      && current == (if chain == [] then null else chain[|chain| - 1])
      && Packed(parts) && bytes == |Text()|
    }

    // The bytes written.
    ghost function Text(): string
      reads this
    {
      Concat(parts)
    }

    // cwmp_chunk_create
    constructor ()
      ensures Valid() && Text() == "" && fresh(repr)
    {
      buffer, current, bytes := null, null, 0;
      chain, parts, repr := [], [], {};
    }

    // cwmp_buffer_remain of the current buffer
    method Remain() returns (len: nat)
      requires Valid()
      ensures len == if current == null then 0 else BUFFER_SIZE - current.written
    {
      assert current != null ==> Holds(|chain| - 1);
      len := if current == null then 0 else BUFFER_SIZE - current.written;
    }

    // The next buffer is a new one.
    method Grow()
      requires Valid() && (current != null ==> current.written == BUFFER_SIZE)
      modifies this`buffer, this`current, this`chain, this`parts, this`repr, repr
      ensures Valid() && Text() == old(Text()) && fresh(repr - old(repr)) && current != null && current.written == 0
    {
      hide Concat, Packed;
      ghost var n := |chain|;
      assert n > 0 ==> Holds(n - 1);
      OpenedPart(parts);
      var b := new Buffer();
      if current != null {
        current.next := b;
      } else {
        buffer := b;
      }
      current := b;
      chain := chain + [b];
      repr := repr + {b, b.bytes};
      parts := parts + [""];
      forall i | 0 <= i < |chain| ensures Holds(i) {
        if i < n {
          assert old(Holds(i));
        }
      }
      assert Distinct(chain) by {
        assert forall i :: 0 <= i < n ==> old(Holds(i));
      }
    }

    // Into the current buffer, which has room.
    method Append(piece: string)
      requires Valid() && current != null && |piece| <= BUFFER_SIZE - current.written
      modifies this`bytes, this`parts, repr
      ensures Valid() && Text() == old(Text()) + piece
    {
      hide Concat, Packed;
      ghost var n := |chain| - 1;
      assert Holds(n);
      LongerPart(parts, piece);
      current.WriteBytes(piece);
      bytes := bytes + |piece|;
      parts := parts[n := parts[n] + piece];
      forall i | 0 <= i <= n ensures Holds(i) {
        assert old(Holds(i));
      }
    }

    // cwmp_chunk_write_string
    method WriteString(str: string) returns (writed: nat)
      requires Valid()
      modifies this, repr
      ensures Valid() && fresh(repr - old(repr)) && Text() == old(Text()) + str && writed == |str|
    {
      hide Holds, Distinct, Text, Packed, Concat;
      writed := 0;
      var leftbytes: nat := |str|;
      while leftbytes > 0
        invariant Valid() && fresh(repr - old(repr))
        invariant writed + leftbytes == |str|
        invariant Text() == old(Text()) + str[..writed]
      {
        var len := Remain();
        if len <= 0 {
          Grow();
          len := Remain();
        }
        var writebytes := if leftbytes > len then len else leftbytes;
        Append(str[writed..writed + writebytes]);
        Sliced(str, writed, writebytes);
        writed := writed + writebytes;
        leftbytes := leftbytes - writebytes;
      }
      assert str[..writed] == str;
    }

    // The next n bytes, from the k-th buffer.
    method CopyPart(b: Buffer, dest: array<char>, at: nat, n: nat, ghost k: nat, ghost image: string)
      requires Valid() && dest !in repr
      requires k < |chain| && b == chain[k] && Holds(k)
      requires n <= b.written && at + n <= |Text()| && at + n <= dest.Length
      requires n > 0 ==> at == BUFFER_SIZE * k
      requires image == Image(Text()) && CopiedTo(dest, at, image)
      modifies dest
      ensures Valid() && CopiedTo(dest, at + n, image)
    {
      hide Concat, Strncpy, Packed, Image;
      ghost var piece := Strncpy(b.Content(), n);
      if n > 0 {
        PartsOf(parts, k);
        PartCopied(b.Content(), Text(), k, n);
      }
      CopyBytes(dest, at, Strncpy(b.bytes[..b.written], n));
      Sliced(image, at, n);
      assert piece == image[at..at + n];
    }

    lemma PartFits(k: nat)
      requires Valid() && k < |chain|
      ensures Holds(k) && BUFFER_SIZE * k + chain[k].written <= |Text()|
      ensures chain[k].read == 0 && chain[k].next == if k + 1 < |chain| then chain[k + 1] else null
      ensures k < |chain| - 1 ==> chain[k].written == BUFFER_SIZE
      ensures k == |chain| - 1 ==> BUFFER_SIZE * k + chain[k].written == |Text()|
    {
      hide Concat;
      PartsOf(parts, k);
      assert Holds(k);
    }

    lemma NoParts()
      requires Valid()
      ensures Text() != "" ==> parts != []
    {
    }

    // cwmp_chunk_copy: the first bytes written, as many as there are or fit, as
    // strncpy copies them buffer by buffer. The destination has room for a
    // terminator after max bytes.
    method Copy(dest: array<char>, max: nat) returns (destwrited: nat)
      requires Valid() && dest !in repr && max < dest.Length
      modifies dest
      ensures destwrited == if max < |Text()| then max else |Text()|
      ensures dest[..destwrited] == Image(Text())[..destwrited] && dest[destwrited] == 0 as char
      ensures NulFree(Text()[..destwrited]) ==> dest[..destwrited] == Text()[..destwrited]
    {
      hide Concat, NulFree, Packed, Text, Image, Holds, Distinct, CopiedTo;
      var b := buffer;
      var bufleft: nat := bytes;
      ghost var k, text, image := 0, Text(), Image(Text());
      destwrited := 0;
      NoParts();
      NothingCopied(dest, image);
      while destwrited <= max && bufleft > 0 && b != null
        invariant Valid() && text == Text() && 0 <= destwrited <= max
        invariant bufleft == |text| - destwrited
        invariant CopiedTo(dest, destwrited, image)
        invariant k <= |chain| && b == if k < |chain| then chain[k] else null
        invariant destwrited < max && bufleft > 0 ==> k < |chain| && destwrited == BUFFER_SIZE * k
        decreases |chain| - k
      {
        PartFits(k);
        var length := b.written - b.read;
        var part := if bufleft > length then length else bufleft;
        var room := max - destwrited;
        var writebytes := if room > part then part else room;
        CopyPart(b, dest, destwrited, writebytes, k, image);
        destwrited := destwrited + writebytes;
        bufleft := bufleft - writebytes;
        b := b.next;
        k := k + 1;
      }
      EndCopy(dest, destwrited, image);
      ImageIs(text, destwrited);
    }

    // dest[destwrited] = 0
    method EndCopy(dest: array<char>, n: nat, ghost image: string)
      requires n < dest.Length && CopiedTo(dest, n, image)
      modifies dest
      ensures n <= |image| && dest[..n] == image[..n] && dest[n] == 0 as char
    {
      dest[n] := 0 as char;
    }

    ghost predicate CopiedTo(dest: array<char>, n: nat, image: string)
      reads dest
    {
      n <= dest.Length && n <= |image| && dest[..n] == image[..n]
    }

    lemma NothingCopied(dest: array<char>, image: string)
      ensures CopiedTo(dest, 0, image)
    {
    }

    method CopyBytes(dest: array<char>, at: nat, s: string)
      requires at + |s| <= dest.Length
      modifies dest
      ensures dest[..at + |s|] == old(dest[..at]) + s
    {
      var i := 0;
      while i < |s|
        invariant 0 <= i <= |s| && dest[..at + i] == old(dest[..at]) + s[..i]
      {
        dest[at + i] := s[i];
        assert dest[..at + i + 1] == dest[..at + i] + [s[i]];
        assert s[..i + 1] == s[..i] + [s[i]];
        i := i + 1;
      }
    }
  }

  // Three bytes with a NUL between: the one after it is not copied.
  method NulEndsCopy() returns (dest: array<char>, n: nat)
    ensures n == 3 <= dest.Length && dest[..3] == ['a', 0 as char, 0 as char]
  {
    hide Chunk.Valid, Chunk.Text, Image, NulFree;
    var text := ['a', 0 as char, 'b'];
    ImageOfNul(text);
    dest := new char[8](_ => 'x');
    var chunk := new Chunk();
    n := chunk.WriteString(text);
    assert "" + text == text;
    n := chunk.Copy(dest, 7);
    assert dest[..3] == Image(text)[..3];
  }

  lemma ImageOfNul(text: string)
    requires text == ['a', 0 as char, 'b']
    ensures Image(text) == ['a', 0 as char, 0 as char]
  {
    assert Ended(text, 1) && Ended(text, 2) by { assert Earlier(1, 1) && Earlier(1, 2); }
    assert !Ended(text, 0);
  }
}
