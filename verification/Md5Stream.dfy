// The MD5 context: a message fed in pieces, and its digest.
module Md5Stream {
  import opened Md5
  import opened Md5Block

  lemma OneBlock(s: State, all: seq<Byte>)
    requires |all| >= BLOCK_SIZE
    ensures Absorbed(Compress, s, all[..BLOCK_SIZE]) == Compress(s, all[..BLOCK_SIZE])
  {
    hide Compress;
    var b := all[..BLOCK_SIZE];
    assert b[..BLOCK_SIZE] == b && b[BLOCK_SIZE..] == [];
  }

  lemma BlockAbsorbed(s: State, all: seq<Byte>, k: nat)
    requires k % BLOCK_SIZE == 0 && k + BLOCK_SIZE <= |all|
    ensures Absorbed(Compress, s, all[..k + BLOCK_SIZE])
            == Compress(Absorbed(Compress, s, all[..k]), all[k..k + BLOCK_SIZE])
  {
    hide Compress;
    var b := all[k..k + BLOCK_SIZE];
    assert all[..k + BLOCK_SIZE] == all[..k] + b;
    AbsorbedThen(Compress, s, all[..k], b);
    assert b[..BLOCK_SIZE] == b && b[BLOCK_SIZE..] == [];
  }

  lemma LastBlocks(s: State, all: seq<Byte>, k: nat)
    requires k % BLOCK_SIZE == 0 && k <= |all| < k + BLOCK_SIZE
    ensures Absorbed(Compress, s, all) == Absorbed(Compress, s, all[..k]) && Tail(all) == all[k..]
  {
    hide Compress;
    assert Whole(all) == all[..k];
    WholeAbsorbed(Compress, s, all);
  }

  lemma NothingAbsorbed(s: State)
    ensures Absorbed(Compress, s, []) == s
  {
  }

  // i + 63 < inputLen, on unsigned ints
  predicate GoesOn(i: nat, inputLen: nat) {
    (i + 63) % WORD_RANGE < inputLen
  }

  // The loop's test means what it says, wherever the loop makes it, exactly
  // when the waiting tail and the piece together stay below 2^32 bytes.
  lemma LoopBound(index: nat, inputLen: nat)
    requires index < BLOCK_SIZE && inputLen < WORD_RANGE
    ensures (forall i | 0 <= i <= inputLen && (index + i) % BLOCK_SIZE == 0 ::
               GoesOn(i, inputLen) <==> i + 63 < inputLen)
            <==> index + inputLen < WORD_RANGE
  {
    if index + inputLen >= WORD_RANGE {
      assert GoesOn(WORD_RANGE - index, inputLen);
    } else {
      forall i | 0 <= i <= inputLen && (index + i) % BLOCK_SIZE == 0
        ensures GoesOn(i, inputLen) <==> i + 63 < inputLen
      {
        assert index + i <= WORD_RANGE - BLOCK_SIZE;
      }
    }
  }

  lemma LoopTest(index: nat, inputLen: nat, i: nat)
    requires index < BLOCK_SIZE && inputLen < WORD_RANGE && index + inputLen < WORD_RANGE
    requires i <= inputLen && (index + i) % BLOCK_SIZE == 0
    ensures GoesOn(i, inputLen) <==> i + 63 < inputLen
  {
    LoopBound(index, inputLen);
  }

  lemma Behind(waiting: seq<Byte>, input: seq<Byte>, i: nat, j: nat)
    requires i <= j <= |input|
    ensures (waiting + input)[|waiting| + i..|waiting| + j] == input[i..j]
    ensures (waiting + input)[|waiting| + i..] == input[i..]
  {
  }

  // Where the loop's k-th test is made, on unsigned ints.
  function TestedAt(index: nat, k: nat): nat
    requires index < BLOCK_SIZE
  {
    (BLOCK_SIZE - index + BLOCK_SIZE * k) % WORD_RANGE
  }

  // For any longer piece the test never fails: the loop does not end.
  lemma LoopEnds(index: nat, inputLen: nat)
    requires index < BLOCK_SIZE && BLOCK_SIZE - index <= inputLen < WORD_RANGE
    ensures (exists k: nat :: !GoesOn(TestedAt(index, k), inputLen)) <==> index + inputLen < WORD_RANGE
  {
    hide GoesOn, TestedAt;
    if index + inputLen < WORD_RANGE {
      LastTest(index, inputLen);
    } else {
      forall k: nat ensures GoesOn(TestedAt(index, k), inputLen) {
        TestedAligned(index, k);
        NeverFails(index, inputLen, TestedAt(index, k));
      }
    }
  }

  lemma LastTest(index: nat, inputLen: nat)
    requires index < BLOCK_SIZE && BLOCK_SIZE - index <= inputLen && index + inputLen < WORD_RANGE
    ensures !GoesOn(TestedAt(index, (index + inputLen) / BLOCK_SIZE - 1), inputLen)
  {
    var k := (index + inputLen) / BLOCK_SIZE - 1;
    assert TestedAt(index, k) == BLOCK_SIZE * (k + 1) - index;
  }

  lemma TestedAligned(index: nat, k: nat)
    requires index < BLOCK_SIZE
    ensures TestedAt(index, k) < WORD_RANGE && (index + TestedAt(index, k)) % BLOCK_SIZE == 0
  {
    var x := BLOCK_SIZE - index + BLOCK_SIZE * k;
    assert index + TestedAt(index, k) == BLOCK_SIZE * (1 + k - x / WORD_RANGE * 0x400_0000);
  }

  lemma NeverFails(index: nat, inputLen: nat, i: nat)
    requires index < BLOCK_SIZE && inputLen < WORD_RANGE <= index + inputLen
    requires i < WORD_RANGE && (index + i) % BLOCK_SIZE == 0
    ensures GoesOn(i, inputLen)
  {
    assert index + i <= WORD_RANGE;
  }

  // What waits for a full block and the next piece can be counted on 32 bits.
  predicate Countable(before: seq<Byte>, piece: seq<Byte>) {
    |piece| < WORD_RANGE && |before| % BLOCK_SIZE + |piece| < WORD_RANGE
  }

  // A digest's words, or the two counts, as bytes.
  lemma TwoWords(low: Word, high: Word)
    ensures Encoded([low, high]) == LowFirst(low + WORD_RANGE * high, 8)
  {
    hide LowFirst;
    assert [low, high][..1] == [low];
    assert Encoded([low]) == Encoded([]) + LowFirst(low, 4) by { EncodedMore([low], 0); }
    assert Encoded([low, high]) == LowFirst(low, 4) + LowFirst(high, 4);
    var n := low + WORD_RANGE * high;
    ByteOff(low, 0x100_0000 * high, 8);
    ByteOff(low / 256, 0x1_0000 * high, 7);
    ByteOff(low / 256 / 256, 0x100 * high, 6);
    ByteOff(low / 256 / 256 / 256, high, 5);
    assert low / 256 / 256 / 256 / 256 == 0;
    FirstByte(low, 4);
    FirstByte(low / 256, 3);
    FirstByte(low / 256 / 256, 2);
    FirstByte(low / 256 / 256 / 256, 1);
    NoByte(0);
  }

  lemma ByteOff(low: nat, t: nat, bytes: nat)
    requires bytes > 0
    ensures LowFirst(low + 256 * t, bytes) == [low % 256] + LowFirst(low / 256 + t, bytes - 1)
  {
    assert (low + 256 * t) % 256 == low % 256 && (low + 256 * t) / 256 == low / 256 + t;
  }

  lemma NoByte(n: nat)
    ensures LowFirst(n, 0) == []
  {
  }

  lemma FirstByte(n: nat, bytes: nat)
    requires bytes > 0
    ensures LowFirst(n, bytes) == [n % 256] + LowFirst(n / 256, bytes - 1)
  {
  }

  function Words(s: State): seq<Word> {
    [ValueOf(s.a), ValueOf(s.b), ValueOf(s.c), ValueOf(s.d)]
  }

  lemma FourWords(s: State)
    ensures Encoded(Words(s)) == DigestOf(s)
  {
    hide LowFirst;
    var w := Words(s);
    EncodedMore(w, 0);
    EncodedMore(w, 1);
    EncodedMore(w, 2);
    EncodedMore(w, 3);
    assert w[..0] == [] && w[..4] == w;
    assert Encoded([]) == [];
  }

  class Context {
    var state: State
    var count0: Word
    var count1: Word
    const buffer: array<Byte>

    // What has been fed so far.
    ghost var message: seq<Byte>

    // The buffer holds the bytes that do not fill a block yet, the two counts
    // the length in bits modulo 2^64.
    ghost predicate Valid()
      reads this, buffer
    {
      && buffer.Length == BLOCK_SIZE
      && state == Absorbed(Compress, INITIAL, message)
      && count0 + WORD_RANGE * count1 == 8 * |message| % COUNT_RANGE
      && buffer[..|message| % BLOCK_SIZE] == Tail(message)
    }

    // MD5Init
    constructor ()
      ensures Valid() && message == [] && fresh(buffer)
    {
      buffer := new Byte[BLOCK_SIZE](_ => 0);
      count0, count1 := 0, 0;
      state := INITIAL;
      message := [];
    }

    // MD5_memcpy into the buffer.
    method Memcpy(at: nat, input: seq<Byte>, from: nat, length: nat)
      requires at + length <= buffer.Length && from + length <= |input|
      modifies buffer
      ensures buffer[..at + length] == old(buffer[..at]) + input[from..from + length]
    {
      var i := 0;
      while i < length
        invariant 0 <= i <= length
        invariant buffer[..at + i] == old(buffer[..at]) + input[from..from + i]
      {
        buffer[at + i] := input[from + i];
        assert input[from..from + i + 1] == input[from..from + i] + [input[from + i]];
        assert buffer[..at + i + 1] == buffer[..at + i] + [input[from + i]];
        i := i + 1;
      }
    }

    // Adds a length in bytes to the two counts.
    method AddCount(inputLen: nat, ghost length: nat)
      requires inputLen < WORD_RANGE && count0 + WORD_RANGE * count1 == 8 * length % COUNT_RANGE
      modifies this`count0, this`count1
      ensures count0 + WORD_RANGE * count1 == 8 * (length + inputLen) % COUNT_RANGE
    {
      CountAdded(count0, count1, inputLen, 8 * length);
      var x := inputLen * 8 % WORD_RANGE;
      count0 := (count0 + x) % WORD_RANGE;
      if count0 < x {
        count1 := (count1 + 1) % WORD_RANGE;
      }
      count1 := (count1 + inputLen / 0x2000_0000) % WORD_RANGE;
      assert count0 == LowAfter(old(count0), inputLen) && count1 == HighAfter(old(count0), old(count1), inputLen);
      hide LowAfter, HighAfter;
      assert 8 * length + 8 * inputLen == 8 * (length + inputLen);
    }

    // The buffer is filled up and transformed, then every whole block of the
    // input; i is where the rest of the input begins. The loop compares
    // i + 63 as an unsigned int.
    method TransformBlocks(input: seq<Byte>, index: nat, ghost all: seq<Byte>) returns (i: nat)
      requires index < BLOCK_SIZE == buffer.Length && BLOCK_SIZE - index <= |input| < WORD_RANGE
      requires index + |input| < WORD_RANGE
      requires all == buffer[..index] + input
      modifies this`state, buffer
      ensures i <= |input| && Tail(all) == input[i..]
      ensures state == Absorbed(Compress, old(state), all)
    {
      hide Absorbed, Compress, Tail, GoesOn;
      var inputLen := |input|;
      var partLen := BLOCK_SIZE - index;
      ghost var waiting := buffer[..index];
      Memcpy(index, input, 0, partLen);
      assert buffer[..] == buffer[..index + partLen] == all[..BLOCK_SIZE];
      ghost var before := state;
      state := MD5Transform(state, buffer[..]);
      OneBlock(before, all);
      i := partLen;
      while GoesOn(i, inputLen)
        invariant partLen <= i <= inputLen && (index + i) % BLOCK_SIZE == 0
        invariant state == Absorbed(Compress, before, all[..index + i])
        decreases inputLen - i
      {
        LoopTest(index, inputLen, i);
        Behind(waiting, input, i, i + 64);
        BlockAbsorbed(before, all, index + i);
        state := MD5Transform(state, input[i..i + 64]);
        i := i + 64;
      }
      LoopTest(index, inputLen, i);
      LastBlocks(before, all, index + i);
      Behind(waiting, input, i, inputLen);
    }

    // MD5Update
    method Update(input: seq<Byte>)
      requires Valid() && Countable(message, input)
      modifies this`state, this`count0, this`count1, this`message, buffer
      ensures Valid() && message == old(message) + input
    {
      hide Absorbed, Compress, Tail;
      var index := count0 / 8 % BLOCK_SIZE;
      IndexOf(count0, count1, |message|);
      assert index == |message| % BLOCK_SIZE;
      AddCount(|input|, |message|);
      AbsorbedMore(Compress, INITIAL, message, input);
      ghost var all := buffer[..index] + input;
      var partLen := BLOCK_SIZE - index;
      var i := 0;
      if |input| >= partLen {
        i := TransformBlocks(input, index, all);
        index := 0;
      } else {
        LastBlocks(state, all, 0);
        assert all[..0] == [] && all[0..] == all;
        NothingAbsorbed(state);
      }
      Memcpy(index, input, i, |input| - i);
      message := message + input;
      assert buffer[..index + |input| - i] == Tail(all);
    }

    // MD5Final: the padding and the length follow, and the context is wiped.
    method Final() returns (digest: seq<Byte>)
      requires Valid()
      modifies this, buffer
      ensures digest == Digest(Compress, old(message))
      ensures state == State(0, 0, 0, 0) && count0 == count1 == 0 && forall i :: 0 <= i < buffer.Length ==>
                buffer[i] == 0
    {
      hide Absorbed, Compress, Tail, Encoded, LowFirst;
      ghost var m := message;
      var bits := Encode([count0, count1]);
      TwoWords(count0, count1);
      IndexOf(count0, count1, |message|);
      var index := count0 / 8 % BLOCK_SIZE;
      var padLen := if index < 56 then 56 - index else 120 - index;
      var padding: seq<Byte> := [0x80] + seq(63, _ => 0);
      assert padding[..padLen] == Padding(|m|);
      Update(padding[..padLen]);
      Update(bits);
      assert message == Padded(m);
      digest := Encode(Words(state));
      FourWords(state);
      state := State(0, 0, 0, 0);
      count0, count1 := 0, 0;
      var i := 0;
      while i < BLOCK_SIZE
        invariant 0 <= i <= BLOCK_SIZE && forall k :: 0 <= k < i ==> buffer[k] == 0
        modifies buffer
      {
        buffer[i] := 0;
        i := i + 1;
      }
    }
  }

  function Concatenated(pieces: seq<seq<Byte>>): seq<Byte> {
    if pieces == [] then [] else Concatenated(pieces[..|pieces| - 1]) + pieces[|pieces| - 1]
  }

  // However a message is cut into pieces, the digest is that of the whole.
  method DigestOfPieces(pieces: seq<seq<Byte>>) returns (digest: seq<Byte>)
    requires forall k :: 0 <= k < |pieces| ==> Countable(Concatenated(pieces[..k]), pieces[k])
    ensures digest == Digest(Compress, Concatenated(pieces))
  {
    hide Absorbed, Compress, Digest;
    var context := new Context();
    var i := 0;
    while i < |pieces|
      invariant 0 <= i <= |pieces| && context.Valid() && fresh(context) && fresh(context.buffer)
      invariant context.message == Concatenated(pieces[..i])
    {
      context.Update(pieces[i]);
      assert pieces[..i + 1][..i] == pieces[..i];
      i := i + 1;
    }
    assert pieces[..i] == pieces;
    digest := context.Final();
  }
}
