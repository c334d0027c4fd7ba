// Streaming MD5 (libcwmp/src/md5.c): a message digested piece by piece.
module Md5 {

  type Byte = n: int | 0 <= n < 256
  type Word = n: int | 0 <= n < 0x1_0000_0000

  // A word as the transformation takes it, with sums modulo 2^32.
  type Bits = bv32

  function ValueOf(b: Bits): Word {
    b as Word
  }

  function BitsOf(w: Word): Bits {
    w as Bits
  }

  // The four words A, B, C, D.
  datatype State = State(a: Bits, b: Bits, c: Bits, d: Bits)

  const INITIAL: State := State(0x67452301, 0xefcdab89, 0x98badcfe, 0x10325476)

  // The transformation of a state by one block of 64 bytes.
  type Transform = (State, seq<Byte>) -> State

  const BLOCK_SIZE: nat := 64
  const WORD_RANGE: nat := 0x1_0000_0000
  const COUNT_RANGE: nat := 0x1_0000_0000_0000_0000

  // ------------------------------------------------------------- the standard

  // The state after the whole blocks of a message, section 3.4 of RFC 1321.
  function Absorbed(f: Transform, s: State, m: seq<Byte>): State
    decreases |m|
  {
    if |m| < BLOCK_SIZE then s else Absorbed(f, f(s, m[..BLOCK_SIZE]), m[BLOCK_SIZE..])
  }

  // Sections 3.1 and 3.2: a bit 1, zeros until the length is 448 modulo 512
  // bits, and the length in bits as 64 bits, low-order byte first.
  function Padding(n: nat): (p: seq<Byte>)
    ensures 1 <= |p| <= BLOCK_SIZE && (n + |p|) % BLOCK_SIZE == 56
    ensures p[0] == 0x80 && forall i :: 1 <= i < |p| ==> p[i] == 0
  {
    var index := n % BLOCK_SIZE;
    var length := if index < 56 then 56 - index else 120 - index;
    [0x80] + seq(length - 1, _ => 0)
  }

  function LowFirst(n: nat, bytes: nat): (s: seq<Byte>)
    ensures |s| == bytes
  {
    if bytes == 0 then [] else [n % 256] + LowFirst(n / 256, bytes - 1)
  }

  lemma PaddedLength(n: nat, k: nat)
    requires (n + k) % BLOCK_SIZE == 56
    ensures (n + k + 8) % BLOCK_SIZE == 0
  {
  }

  function Padded(m: seq<Byte>): (p: seq<Byte>)
    ensures |p| % BLOCK_SIZE == 0
  {
    PaddedLength(|m|, |Padding(|m|)|);
    m + Padding(|m|) + LowFirst(8 * |m| % COUNT_RANGE, 8)
  }

  function DigestOf(s: State): (d: seq<Byte>)
    ensures |d| == 16
  {
    LowFirst(ValueOf(s.a), 4) + LowFirst(ValueOf(s.b), 4) + LowFirst(ValueOf(s.c), 4) + LowFirst(ValueOf(s.d), 4)
  }

  function Digest(f: Transform, m: seq<Byte>): seq<Byte> {
    DigestOf(Absorbed(f, INITIAL, Padded(m)))
  }

  // ---------------------------------------------------------- blocks and tails

  // Whole blocks may be absorbed by themselves first.
  lemma {:induction false} AbsorbedThen(f: Transform, s: State, a: seq<Byte>, b: seq<Byte>)
    requires |a| % BLOCK_SIZE == 0
    ensures Absorbed(f, s, a + b) == Absorbed(f, Absorbed(f, s, a), b)
    decreases |a|
  {
    if a == [] {
      assert a + b == b;
    } else {
      assert (a + b)[..BLOCK_SIZE] == a[..BLOCK_SIZE];
      assert (a + b)[BLOCK_SIZE..] == a[BLOCK_SIZE..] + b;
      AbsorbedThen(f, f(s, a[..BLOCK_SIZE]), a[BLOCK_SIZE..], b);
    }
  }

  function Tail(m: seq<Byte>): (t: seq<Byte>)
    ensures |t| == |m| % BLOCK_SIZE
  {
    m[|m| - |m| % BLOCK_SIZE..]
  }

  function Whole(m: seq<Byte>): (w: seq<Byte>)
    ensures |w| % BLOCK_SIZE == 0 && w + Tail(m) == m
  {
    m[..|m| - |m| % BLOCK_SIZE]
  }

  lemma WholeAbsorbed(f: Transform, s: State, m: seq<Byte>)
    ensures Absorbed(f, s, m) == Absorbed(f, s, Whole(m))
  {
    AbsorbedThen(f, s, Whole(m), Tail(m));
  }

  // More input is absorbed behind the tail that waits for it.
  lemma AbsorbedMore(f: Transform, s: State, m: seq<Byte>, more: seq<Byte>)
    ensures Absorbed(f, s, m + more) == Absorbed(f, Absorbed(f, s, m), Tail(m) + more)
    ensures Tail(m + more) == Tail(Tail(m) + more)
  {
    var w, t := Whole(m), Tail(m);
    assert m + more == w + (t + more);
    AbsorbedThen(f, s, w, t + more);
    WholeAbsorbed(f, s, m);
    TailOf(w, t + more);
  }

  lemma TailOf(w: seq<Byte>, t: seq<Byte>)
    requires |w| % BLOCK_SIZE == 0
    ensures Tail(w + t) == Tail(t)
  {
    assert (|w| + |t|) % BLOCK_SIZE == |t| % BLOCK_SIZE;
  }

  // ------------------------------------------------------------- the bit count

  function LowAfter(low: Word, n: nat): Word {
    (low + n * 8 % WORD_RANGE) % WORD_RANGE
  }

  function HighAfter(low: Word, high: Word, n: nat): Word {
    ((if LowAfter(low, n) < n * 8 % WORD_RANGE then (high + 1) % WORD_RANGE else high) + n / 0x2000_0000) % WORD_RANGE
  }

  // Adding to the low word and testing for a carry by comparison, then adding
  // the high part, is addition modulo 2^64.
  lemma CountAdded(low: Word, high: Word, n: nat, bits: nat)
    requires n < WORD_RANGE && low + WORD_RANGE * high == bits % COUNT_RANGE
    ensures LowAfter(low, n) + WORD_RANGE * HighAfter(low, high, n) == (bits + 8 * n) % COUNT_RANGE
  {
    var x := n * 8 % WORD_RANGE;
    var y := n / 0x2000_0000;
    Scaled(n);
    var l := (low + x) % WORD_RANGE;
    var carry := if l < x then 1 else 0;
    Carried(low, x);
    var sum := high + carry + y;
    SumOf(high + carry, y);
    assert HighAfter(low, high, n) == sum % WORD_RANGE;
    var times := bits / COUNT_RANGE;
    assert bits == low + WORD_RANGE * high + COUNT_RANGE * times;
    assert bits + 8 * n == l + WORD_RANGE * (sum % WORD_RANGE) + COUNT_RANGE * (sum / WORD_RANGE + times);
    Modulo(l + WORD_RANGE * (sum % WORD_RANGE), sum / WORD_RANGE + times, bits + 8 * n);
  }

  lemma Scaled(n: nat)
    ensures 8 * n == n * 8 % WORD_RANGE + WORD_RANGE * (n / 0x2000_0000)
  {
  }

  lemma Carried(low: Word, x: Word)
    ensures var l := (low + x) % WORD_RANGE; low + x == l + WORD_RANGE * (if l < x then 1 else 0)
  {
  }

  lemma SumOf(a: nat, y: nat)
    ensures (a % WORD_RANGE + y) % WORD_RANGE == (a + y) % WORD_RANGE
  {
  }

  lemma Modulo(r: nat, q: nat, n: nat)
    requires r < COUNT_RANGE && n == r + COUNT_RANGE * q
    ensures n % COUNT_RANGE == r
  {
  }

  lemma IndexOf(low: Word, high: Word, length: nat)
    requires low + WORD_RANGE * high == 8 * length % COUNT_RANGE
    ensures low / 8 % BLOCK_SIZE == length % BLOCK_SIZE
  {
    var q := 8 * length / COUNT_RANGE;
    assert 8 * length == low + WORD_RANGE * high + COUNT_RANGE * q;
    assert length == low / 8 + BLOCK_SIZE * (0x80_0000 * high + 0x80_0000 * WORD_RANGE * q);
  }

  // ---------------------------------------------------------------- encoding

  // The bytes of the words, low-order byte first.
  method Encode(input: seq<Word>) returns (output: seq<Byte>)
    ensures output == Encoded(input)
  {
    var out := new Byte[4 * |input|](_ => 0);
    var i, j := 0, 0;
    while j < out.Length
      invariant 0 <= i <= |input| && j == 4 * i
      invariant out[..j] == Encoded(input[..i])
    {
      out[j] := input[i] % 256;
      out[j + 1] := input[i] / 0x100 % 256;
      out[j + 2] := input[i] / 0x1_0000 % 256;
      out[j + 3] := input[i] / 0x100_0000 % 256;
      EncodedMore(input, i);
      FourBytes(input[i]);
      assert out[..j + 4] == out[..j] + LowFirst(input[i], 4);
      i, j := i + 1, j + 4;
    }
    assert input[..i] == input;
    output := out[..];
    assert output == out[..j];
  }

  function Encoded(words: seq<Word>): (s: seq<Byte>)
    ensures |s| == 4 * |words|
  {
    if words == [] then [] else Encoded(words[..|words| - 1]) + LowFirst(words[|words| - 1], 4)
  }

  lemma EncodedMore(words: seq<Word>, i: nat)
    requires i < |words|
    ensures Encoded(words[..i + 1]) == Encoded(words[..i]) + LowFirst(words[i], 4)
  {
    assert words[..i + 1][..i] == words[..i];
  }

  lemma FourBytes(w: Word)
    ensures LowFirst(w, 4) == [w % 256, w / 0x100 % 256, w / 0x1_0000 % 256, w / 0x100_0000 % 256]
  {
    assert LowFirst(w / 0x100_0000, 1) == [w / 0x100_0000 % 256];
    assert LowFirst(w / 0x1_0000, 2) == [w / 0x1_0000 % 256] + LowFirst(w / 0x1_0000 / 256, 1);
    assert LowFirst(w / 0x100, 3) == [w / 0x100 % 256] + LowFirst(w / 0x100 / 256, 2);
  }

  function Joined(b0: int, b1: int, b2: int, b3: int): int {
    b0 + 0x100 * b1 + 0x1_0000 * b2 + 0x100_0000 * b3
  }

  lemma JoinedBytes(w: Word)
    ensures Joined(w % 256, w / 0x100 % 256, w / 0x1_0000 % 256, w / 0x100_0000 % 256) == w
  {
    assert w == w % 256 + 256 * (w / 256);
    var w1 := w / 0x100;
    assert w1 / 256 == w / 0x1_0000 && w1 == w1 % 256 + 256 * (w1 / 256);
    var w2 := w / 0x1_0000;
    assert w2 / 256 == w / 0x100_0000 && w2 == w2 % 256 + 256 * (w2 / 256);
  }

  lemma SplitBytes(b0: Byte, b1: Byte, b2: Byte, b3: Byte)
    ensures var w := Joined(b0, b1, b2, b3);
            w % 256 == b0 && w / 0x100 % 256 == b1 && w / 0x1_0000 % 256 == b2 && w / 0x100_0000 % 256 == b3
  {
    var w := Joined(b0, b1, b2, b3);
    assert w == b0 + 256 * (b1 + 256 * b2 + 0x1_0000 * b3);
    assert w / 0x100 == b1 + 256 * (b2 + 256 * b3);
    assert w / 0x1_0000 == b2 + 256 * b3;
    assert w / 0x100_0000 == b3;
  }

  // A word from its bytes.
  function WordAt(bytes: seq<Byte>, j: nat): (w: Word)
    requires j + 4 <= |bytes|
  {
    Joined(bytes[j], bytes[j + 1], bytes[j + 2], bytes[j + 3])
  }

  method Decode(input: seq<Byte>) returns (output: seq<Word>)
    requires |input| % 4 == 0
    ensures output == Decoded(input)
  {
    var out := new Word[|input| / 4](_ => 0);
    var i, j := 0, 0;
    while j < |input|
      invariant 0 <= i <= out.Length && j == 4 * i
      invariant forall k :: 0 <= k < i ==> out[k] == WordAt(input, 4 * k)
    {
      out[i] := WordAt(input, j);
      i, j := i + 1, j + 4;
    }
    output := out[..];
  }

  function Decoded(bytes: seq<Byte>): (words: seq<Word>)
    requires |bytes| % 4 == 0
    ensures |words| == |bytes| / 4
    ensures forall k :: 0 <= k < |words| ==> words[k] == WordAt(bytes, 4 * k)
  {
    seq(|bytes| / 4, k requires 0 <= k < |bytes| / 4 => WordAt(bytes, 4 * k))
  }

  // Decoding undoes encoding, and encoding decoding.
  lemma {:induction false} DecodeEncoded(words: seq<Word>)
    ensures Decoded(Encoded(words)) == words
  {
    hide Encoded, Joined, LowFirst;
    if words != [] {
      var n := |words| - 1;
      DecodeEncoded(words[..n]);
      var bytes, before := Encoded(words), Encoded(words[..n]);
      assert words[..n + 1] == words;
      EncodedMore(words, n);
      FourBytes(words[n]);
      JoinedBytes(words[n]);
      forall k | 0 <= k < |words| ensures Decoded(bytes)[k] == words[k] {
        if k < n {
          assert WordAt(bytes, 4 * k) == WordAt(before, 4 * k);
        } else {
          assert bytes[4 * n..] == LowFirst(words[n], 4);
        }
      }
    }
  }

  lemma {:induction false} EncodeDecoded(bytes: seq<Byte>)
    requires |bytes| % 4 == 0
    ensures Encoded(Decoded(bytes)) == bytes
    decreases |bytes|
  {
    hide Encoded, Joined, LowFirst;
    if bytes == [] {
      NothingEncoded();
    } else {
      var n := |bytes| - 4;
      EncodeDecoded(bytes[..n]);
      var words := Decoded(bytes);
      assert words[..n / 4] == Decoded(bytes[..n]);
      assert words[..n / 4 + 1] == words;
      EncodedMore(words, n / 4);
      FourBytes(WordAt(bytes, n));
      SplitBytes(bytes[n], bytes[n + 1], bytes[n + 2], bytes[n + 3]);
      assert bytes == bytes[..n] + LowFirst(WordAt(bytes, n), 4);
    }
  }

  lemma NothingEncoded()
    ensures Encoded([]) == []
  {
  }
}
