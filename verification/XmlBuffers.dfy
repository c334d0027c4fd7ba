/** The growing, NUL-terminated byte buffer of libxmlet/src/buffer.c. */
module XmlBuffers {

  datatype Rc = Ok | IndexSizeErr

  /** The text with w inserted before position i. */
  function Splice(s: string, i: nat, w: string): string
    requires i <= |s|
  {
    s[..i] + w + s[i..]
  }

  /** memcpy(a + index, text, |text|). */
  method CopyInto(a: array<char>, index: nat, text: string)
    requires index + |text| <= a.Length
    modifies a
    ensures a[..index] == old(a[..index]) && a[index..index + |text|] == text
    ensures a[index + |text|..] == old(a[index + |text|..])
  {
    forall k | 0 <= k < |text| {
      a[index + k] := text[k];
    }
  }

  /** The moves of XmlBufferInsert: memmove the tail, memcpy the text, write the NUL. */
  method MakeRoomAndCopy(a: array<char>, index: nat, text: string, length: nat)
    requires index <= length && length + |text| < a.Length
    modifies a
    ensures a[..length + |text|] == Splice(old(a[..length]), index, text)
    ensures a[length + |text|] == '\0'
  {
    ghost var was := a[..length];
    forall k | index <= k < length {
      a[k + |text|] := a[k];
    }
    ghost var moved := a[..];
    assert moved[..index] == was[..index] by {
      assert forall k :: 0 <= k < index ==> moved[k] == was[k];
    }
    assert moved[index + |text|..length + |text|] == was[index..] by {
      forall k | 0 <= k < length - index ensures moved[index + |text|..length + |text|][k] == was[index..][k] {
        assert a[index + k + |text|] == was[index + k];
      }
    }
    CopyInto(a, index, text);
    ghost var copied := a[..];
    a[length + |text|] := '\0';
    ghost var now := a[..length + |text|];
    Prefix(a[..], copied, length + |text|);
    SpliceIs(now, was, index, text, moved, copied, length);
  }

  /** Writing behind the first n bytes leaves them. */
  lemma Prefix(a: string, b: string, n: nat)
    requires n <= |a| == |b| && forall k :: 0 <= k < n ==> a[k] == b[k]
    ensures a[..n] == b[..n]
  {
  }

  /** The three stretches of the result, put together. */
  lemma SpliceIs(now: string, was: string, index: nat, text: string, moved: string, copied: string, length: nat)
    requires index <= length == |was| && length + |text| <= |moved| == |copied|
    requires now == copied[..length + |text|]
    requires copied[..index] == moved[..index] == was[..index] && copied[index..index + |text|] == text
    requires copied[index + |text|..] == moved[index + |text|..]
    requires moved[index + |text|..length + |text|] == was[index..]
    ensures now == Splice(was, index, text)
  {
    var i, j := index, index + |text|;
    assert now[..i] == copied[..i];
    assert now[i..j] == copied[i..j];
    assert now[j..] == copied[j..][..length - i] == moved[j..][..length - i] == moved[j..length + |text|];
    assert now == now[..i] + now[i..j] + now[j..];
  }

  class XmlBuffer {
    var buf: array?<char>
    var length: nat
    var capacity: nat
    const sizeInc: nat := 4096
    ghost var Repr: set<object>

    ghost predicate Valid()
      reads this, Repr
      ensures Valid() ==> this in Repr
    {
      this in Repr &&
      (buf == null ==> length == 0 && capacity == 0) &&
      (buf != null ==>
        buf in Repr && buf.Length == capacity && length < capacity && buf[length] == '\0')
    }

    ghost function Text(): string
      requires Valid()
      reads this, Repr
    {
      if buf == null then "" else buf[..length]
    }

    constructor ()
      ensures Valid() && fresh(Repr) && Text() == ""
    {
      buf, length, capacity := null, 0, 0;
      Repr := {this};
    }

    /** XmlBufferSetSize with memory at hand: room for newLength bytes and a NUL. */
    method SetSize(newLength: nat)
      requires Valid()
      modifies Repr
      ensures Valid() && fresh(Repr - old(Repr))
      ensures length == old(length) && Text() == old(Text())
      ensures newLength > length ==> buf != null && newLength < capacity
      ensures capacity >= old(capacity)
    {
      if newLength <= length || newLength < capacity {
        return;
      }
      var allocLen: nat;
      if length == 0 {
        allocLen := newLength + 1;
      } else {
        var diff := newLength - length + 1;
        allocLen := (if sizeInc > diff then sizeInc else diff) + capacity;
      }
      assert allocLen > newLength;
      var tempBuf := new char[allocLen](_ => '\0');
      if length != 0 {
        CopyInto(tempBuf, 0, buf[..length]);
      }
      buf, capacity := tempBuf, allocLen;
      Repr := Repr + {tempBuf};
      assert buf[length] == '\0';
    }

    /** XmlBufferInsert. */
    method Insert(text: string, index: int) returns (rc: Rc)
      requires Valid()
      modifies Repr
      ensures Valid() && fresh(Repr - old(Repr))
      ensures rc.IndexSizeErr? <==> index < 0 || index > |old(Text())|
      ensures Text() == if rc.Ok? then Splice(old(Text()), index, text) else old(Text())
      ensures capacity >= old(capacity)
    {
      if index < 0 || index > length {
        return IndexSizeErr;
      }
      if |text| == 0 {
        return Ok;
      }
      ghost var was := Text();
      SetSize(length + |text|);
      var n := |text|;
      MakeRoomAndCopy(buf, index, text, length);
      length := length + n;
      return Ok;
    }

    /** XmlBufferAppendString, and XmlBufferAppend for a text of one character. */
    method AppendString(text: string)
      requires Valid()
      modifies Repr
      ensures Valid() && fresh(Repr - old(Repr))
      ensures Text() == old(Text()) + text
      ensures capacity >= old(capacity)
    {
      ghost var was := Text();
      var rc := Insert(text, length);
      assert Splice(was, |was|, text) == was + text;
    }
  }
}
