// The bookkeeping behind the small-block allocator: which part of the memory
// obtained from the system is handed out, waits on a free list, is the unspent
// chunk, or is on no list and in nobody's hands.
module TrBlocks {

  const ALIGN: nat := 8
  const MAX_BYTES: nat := 128
  const FREE_LISTS: nat := 32
  const OBJECTS_PER_REFILL: nat := 10

  datatype Use = Live(n: nat) | Free(i: nat) | Chunk | Lost

  datatype Block = Block(size: nat, use: Use)

  type Blocks = map<int, Block>

  function RoundUp(n: nat): (r: nat)
    ensures n <= r < n + ALIGN && r % ALIGN == 0
    ensures n <= MAX_BYTES ==> r <= MAX_BYTES
  {
    (n + ALIGN - 1) / ALIGN * ALIGN
  }

  function FreeListIndex(n: nat): (i: nat)
    requires n >= 1
    ensures RoundUp(n) == ALIGN * (i + 1)
    ensures n <= MAX_BYTES ==> i < FREE_LISTS
  {
    (n + ALIGN - 1) / ALIGN - 1
  }

  // The bytes a request for n takes up: the size class up to MAX_BYTES, the
  // system's own block above it.
  function Footprint(n: nat): (r: nat)
    ensures r >= n
  {
    if n > MAX_BYTES then n else RoundUp(n)
  }

  // ------------------------------------------------------------ the ledger

  ghost predicate Apart(m: Blocks) {
    && (forall b :: b in m ==> b > 0 && m[b].size > 0)
    && (forall a, b :: a in m && b in m && a < b ==> a + m[a].size <= b)
  }

  ghost predicate RightSize(b: int, k: Block) {
    && b % ALIGN == 0
    && (k.use.Live? ==> k.use.n >= 1 && k.size == Footprint(k.use.n))
    && (k.use.Free? ==> k.size == ALIGN * (k.use.i + 1) && k.size <= MAX_BYTES)
    && (k.use.Chunk? ==> k.size % ALIGN == 0)
  }

  ghost predicate Sized(m: Blocks) {
    forall b :: b in m ==> RightSize(b, m[b])
  }

  ghost predicate NoRepeats(s: seq<int>) {
    forall j, k :: 0 <= j < k < |s| ==> s[j] != s[k]
  }

  // Each list holds exactly the blocks marked with its index, each once.
  ghost predicate OnLists(m: Blocks, lists: seq<seq<int>>) {
    && |lists| == FREE_LISTS
    && (forall i :: 0 <= i < FREE_LISTS ==> NoRepeats(lists[i]))
    && (forall i, b :: 0 <= i < FREE_LISTS && b in lists[i] ==> b in m && m[b].use == Free(i))
    && (forall b :: b in m && m[b].use.Free? ==> m[b].use.i < FREE_LISTS && b in lists[m[b].use.i])
  }

  ghost predicate ChunkIs(m: Blocks, start: int, end: int) {
    && start <= end
    && (start < end ==> start in m && m[start] == Block(end - start, Chunk))
    && (forall b :: b in m && m[b].use.Chunk? ==> b == start && start < end)
  }

  ghost predicate Ledger(m: Blocks, lists: seq<seq<int>>, start: int, end: int) {
    Apart(m) && Sized(m) && OnLists(m, lists) && ChunkIs(m, start, end)
  }

  ghost function LiveBlocks(m: Blocks): map<int, nat> {
    map b | b in m && m[b].use.Live? :: m[b].use.n
  }

  ghost function LostBlocks(m: Blocks): set<int> {
    set b | b in m && m[b].use.Lost?
  }

  ghost predicate Inside(m: Blocks, b: int, x: int) {
    b in m && b <= x < b + m[b].size
  }

  // All the bytes the blocks cover.
  ghost function Bytes(m: Blocks): iset<int> {
    iset x, b | Inside(m, b, x) :: x
  }

  predicate InSpan(x: int, p: int, n: nat) {
    p <= x < p + n
  }

  ghost function Span(p: int, n: nat): iset<int> {
    iset x | InSpan(x, p, n)
  }

  // No byte belongs to two blocks: in particular a block handed out shares
  // nothing with another one handed out, with a listed one, or with the chunk.
  lemma OneOwner(m: Blocks, a: int, b: int, x: int)
    requires Apart(m) && Inside(m, a, x) && Inside(m, b, x)
    ensures a == b
  {
  }

  // ------------------------------------------------- what can happen to it

  // Handing over a whole block.
  ghost function Marked(m: Blocks, b: int, use: Use): Blocks
    requires b in m
  {
    m[b := Block(m[b].size, use)]
  }

  // Cutting the first n bytes off a block.
  ghost function Cut(m: Blocks, b: int, n: nat, use: Use): Blocks
    requires b in m && 0 < n <= m[b].size
  {
    if n == m[b].size then Marked(m, b, use)
    else m[b := Block(n, use)][b + n := Block(m[b].size - n, m[b].use)]
  }

  lemma AddedMarked(m: Blocks, p: int, n: nat, use: Use)
    ensures Marked(m[p := Block(n, Lost)], p, use) == m[p := Block(n, use)]
  {
  }

  // The pieces of a cut, and a block c that is neither.
  lemma CutAt(m: Blocks, b: int, n: nat, use: Use, c: int)
    requires b in m && 0 < n < m[b].size && c in m && c != b && c != b + n
    ensures var r := Cut(m, b, n, use);
            && b in r && r[b] == Block(n, use)
            && b + n in r && r[b + n] == Block(m[b].size - n, m[b].use)
            && c in r && r[c] == m[c]
  {
  }

  lemma MarkedKeeps(m: Blocks, b: int, use: Use)
    requires Apart(m) && b in m
    ensures Apart(Marked(m, b, use)) && Bytes(Marked(m, b, use)) == Bytes(m)
  {
    SameBytes(m, Marked(m, b, use));
  }

  // Blocks of the same places and sizes cover the same bytes.
  lemma SameBytes(m: Blocks, r: Blocks)
    requires m.Keys == r.Keys && forall b :: b in m ==> m[b].size == r[b].size
    ensures Bytes(r) == Bytes(m)
  {
    assert forall a, x :: Inside(r, a, x) <==> Inside(m, a, x);
  }

  lemma CutKeeps(m: Blocks, b: int, n: nat, use: Use)
    requires Apart(m) && b in m && 0 < n <= m[b].size
    ensures Apart(Cut(m, b, n, use)) && Bytes(Cut(m, b, n, use)) == Bytes(m)
    ensures n < m[b].size ==> b + n !in m
  {
    if n == m[b].size {
      MarkedKeeps(m, b, use);
    } else {
      CutBytes(m, b, n, use);
    }
  }

  lemma CutBytes(m: Blocks, b: int, n: nat, use: Use)
    requires Apart(m) && b in m && 0 < n < m[b].size
    ensures b + n !in m && Bytes(Cut(m, b, n, use)) == Bytes(m)
  {
    var r := Cut(m, b, n, use);
    assert b + n !in m;
    hide Apart;
    forall x ensures x in Bytes(m) <==> x in Bytes(r) {
      if a :| Inside(m, a, x) {
        assert Inside(r, a, x) || Inside(r, b + n, x);
      }
      if a :| Inside(r, a, x) {
        assert Inside(m, a, x) || Inside(m, b, x);
      }
    }
  }

  // Room for n bytes at p, as the system promises of what it hands out.
  ghost predicate Clear(m: Blocks, p: int, n: nat) {
    p > 0 && forall b :: b in m ==> b + m[b].size <= p || p + n <= b
  }

  lemma AddedKeeps(m: Blocks, p: int, k: Block)
    requires Apart(m) && Clear(m, p, k.size) && k.size > 0
    ensures p !in m && Apart(m[p := k]) && Bytes(m[p := k]) == Bytes(m) + Span(p, k.size)
  {
    var r := m[p := k];
    forall x ensures x in Bytes(r) <==> x in Bytes(m) + Span(p, k.size) {
      if x in Bytes(m) {
        var a :| Inside(m, a, x);
        assert Inside(r, a, x);
      } else if InSpan(x, p, k.size) {
        assert Inside(r, p, x);
      }
      if x in Bytes(r) {
        var a :| Inside(r, a, x);
        assert a != p ==> Inside(m, a, x);
      }
    }
  }

  lemma RemovedKeeps(m: Blocks, p: int)
    requires Apart(m) && p in m
    ensures Apart(m - {p}) && Bytes(m - {p}) == Bytes(m) - Span(p, m[p].size)
  {
    var r := m - {p};
    forall x ensures x in Bytes(r) <==> x in Bytes(m) - Span(p, m[p].size) {
      if x in Bytes(r) {
        var a :| Inside(r, a, x);
        assert Inside(m, a, x);
      } else if x in Bytes(m) && x !in Span(p, m[p].size) {
        var a :| Inside(m, a, x);
        assert Inside(r, a, x);
      }
    }
  }

  // --------------------------------------- what a change does to each part

  lemma MarkedSized(m: Blocks, b: int, use: Use)
    requires Sized(m) && b in m && RightSize(b, Block(m[b].size, use))
    ensures Sized(Marked(m, b, use))
  {
    hide RightSize;
  }

  lemma CutSized(m: Blocks, b: int, n: nat, use: Use)
    requires Sized(m) && b in m && 0 < n <= m[b].size && RightSize(b, Block(n, use))
    requires n < m[b].size ==> RightSize(b + n, Block(m[b].size - n, m[b].use))
    ensures Sized(Cut(m, b, n, use))
  {
    hide RightSize;
  }

  lemma SizedAt(m: Blocks, b: int)
    requires Sized(m) && b in m
    ensures RightSize(b, m[b])
  {
  }

  lemma PositiveAt(m: Blocks, b: int)
    requires Apart(m) && b in m
    ensures b > 0 && m[b].size > 0
  {
  }

  // Blocks on no list may change as long as they stay on none.
  lemma OffLists(m: Blocks, r: Blocks, lists: seq<seq<int>>)
    requires OnLists(m, lists)
    requires forall b :: b in m && m[b].use.Free? ==> b in r && r[b].use == m[b].use
    requires forall b :: b in r && r[b].use.Free? ==> b in m && r[b].use == m[b].use
    ensures OnLists(r, lists)
  {
  }

  lemma ListFreshly(m: Blocks, r: Blocks, lists: seq<seq<int>>, b: int, i: nat, now: seq<int>)
    requires OnLists(m, lists) && i < FREE_LISTS && (b in m ==> !m[b].use.Free?)
    requires b in r && r[b].use == Free(i)
    requires forall c :: c in m && m[c].use.Free? ==> c in r && r[c].use == m[c].use
    requires forall c :: c in r && r[c].use.Free? && c != b ==> c in m && r[c].use == m[c].use
    requires now == [b] + lists[i] || now == lists[i] + [b]
    ensures OnLists(r, lists[i := now])
  {
    assert b !in lists[i];
    assert NoRepeats(lists[i]);
    OneMore(lists[i], b, now);
    var after := lists[i := now];
    hide NoRepeats;
    forall j, c | 0 <= j < FREE_LISTS && c in after[j] ensures c in r && r[c].use == Free(j) {
      assert j != i || c == b || c in lists[i];
    }
    forall c | c in r && r[c].use.Free? ensures r[c].use.i < FREE_LISTS && c in after[r[c].use.i] {
    }
  }

  lemma OneMore(s: seq<int>, b: int, now: seq<int>)
    requires NoRepeats(s) && b !in s && (now == [b] + s || now == s + [b])
    ensures NoRepeats(now) && forall c :: c in now <==> c == b || c in s
  {
  }

  // The chunk stays when blocks that are not the chunk change.
  lemma ChunkStays(m: Blocks, r: Blocks, start: int, end: int)
    requires ChunkIs(m, start, end)
    requires forall b :: b in m && m[b].use.Chunk? ==> b in r && r[b] == m[b]
    requires forall b :: b in r && r[b].use.Chunk? ==> b in m && r[b] == m[b]
    ensures ChunkIs(r, start, end)
  {
  }

  // The same blocks are handed out before and after.
  ghost predicate SameLive(was: Blocks, now: Blocks) {
    && (forall b :: b in was && was[b].use.Live? ==> b in now && now[b] == was[b])
    && (forall b :: b in now && now[b].use.Live? ==> b in was && now[b] == was[b])
  }

  // The n bytes at p were in nobody's hands.
  ghost predicate LiveApart(m: Blocks, p: int, n: nat) {
    forall b :: b in m && m[b].use.Live? ==> b + m[b].size <= p || p + n <= b
  }

  // ------------------------------------------------ and to the whole ledger

  // A block that is neither listed nor the chunk counts for another use of
  // its size.
  lemma Remarked(m: Blocks, lists: seq<seq<int>>, start: int, end: int, b: int, use: Use)
    requires Ledger(m, lists, start, end) && b in m && RightSize(b, Block(m[b].size, use))
    requires !m[b].use.Free? && !m[b].use.Chunk? && !use.Free? && !use.Chunk?
    ensures Ledger(Marked(m, b, use), lists, start, end)
    ensures Bytes(Marked(m, b, use)) == Bytes(m)
  {
    hide Apart, Sized, OnLists, ChunkIs, Bytes, RightSize;
    var r := Marked(m, b, use);
    MarkedKeeps(m, b, use);
    MarkedSized(m, b, use);
    OffLists(m, r, lists);
    ChunkStays(m, r, start, end);
  }

  // A block that is neither goes onto the list of its size.
  lemma Pushed(m: Blocks, lists: seq<seq<int>>, b: int, i: nat)
    requires Apart(m) && Sized(m) && OnLists(m, lists)
    requires b in m && !m[b].use.Free? && b % ALIGN == 0
    requires m[b].size == ALIGN * (i + 1) && m[b].size <= MAX_BYTES
    ensures i < FREE_LISTS
    ensures Apart(Marked(m, b, Free(i))) && Sized(Marked(m, b, Free(i)))
    ensures OnLists(Marked(m, b, Free(i)), lists[i := [b] + lists[i]])
    ensures Bytes(Marked(m, b, Free(i))) == Bytes(m)
  {
    hide Apart, Sized, Bytes;
    assert RightSize(b, Block(m[b].size, Free(i)));
    MarkedKeeps(m, b, Free(i));
    MarkedSized(m, b, Free(i));
    assert i < FREE_LISTS && |lists| == FREE_LISTS;
    hide OnLists, RightSize;
    ListFreshly(m, Marked(m, b, Free(i)), lists, b, i, [b] + lists[i]);
  }

  // The head of a list is handed out.
  lemma Popped(m: Blocks, lists: seq<seq<int>>, start: int, end: int, i: nat, n: nat)
    requires Ledger(m, lists, start, end)
    requires i < FREE_LISTS && lists[i] != []
    requires 1 <= n <= MAX_BYTES && FreeListIndex(n) == i
    ensures lists[i][0] in m && m[lists[i][0]] == Block(Footprint(n), Free(i))
    ensures Ledger(Marked(m, lists[i][0], Live(n)), lists[i := lists[i][1..]], start, end)
    ensures Bytes(Marked(m, lists[i][0], Live(n))) == Bytes(m)
  {
    var b := lists[i][0];
    Unlisted(m, lists, i, Live(n));
    hide Apart, Sized, OnLists, ChunkIs, Bytes;
    SizedAt(m, b);
    MarkedKeeps(m, b, Live(n));
    MarkedSized(m, b, Live(n));
    ChunkStays(m, Marked(m, b, Live(n)), start, end);
  }

  lemma Unlisted(m: Blocks, lists: seq<seq<int>>, i: nat, use: Use)
    requires OnLists(m, lists) && i < FREE_LISTS && lists[i] != [] && !use.Free?
    ensures lists[i][0] in m && m[lists[i][0]].use == Free(i)
    ensures OnLists(Marked(m, lists[i][0], use), lists[i := lists[i][1..]])
  {
    var b := lists[i][0];
    var r := Marked(m, b, use);
    var after := lists[i := lists[i][1..]];
    assert b in lists[i] && NoRepeats(lists[i]);
    OneLess(lists[i]);
    hide NoRepeats;
    forall j, c | 0 <= j < FREE_LISTS && c in after[j] ensures c in r && r[c].use == Free(j) {
      assert c in lists[j];
    }
    forall c | c in r && r[c].use.Free? ensures r[c].use.i < FREE_LISTS && c in after[r[c].use.i] {
      assert c != b && c in lists[m[c].use.i];
    }
  }

  lemma OneLess(s: seq<int>)
    requires NoRepeats(s) && s != []
    ensures NoRepeats(s[1..]) && forall c :: c in s[1..] <==> c != s[0] && c in s
  {
    var tail := s[1..];
    assert s == [s[0]] + tail;
    assert forall k :: 0 <= k < |tail| ==> tail[k] == s[k + 1];
  }

  // A whole list is forgotten.
  ghost function Dropped(m: Blocks, s: seq<int>): Blocks {
    map b | b in m :: if b in s then Block(m[b].size, Lost) else m[b]
  }

  lemma DroppedSized(m: Blocks, lists: seq<seq<int>>, i: nat)
    requires Sized(m) && OnLists(m, lists) && i < FREE_LISTS
    ensures Sized(Dropped(m, lists[i]))
  {
    var r := Dropped(m, lists[i]);
    forall b | b in r ensures RightSize(b, r[b]) {
      assert RightSize(b, m[b]);
    }
  }

  lemma DroppedLists(m: Blocks, lists: seq<seq<int>>, i: nat)
    requires OnLists(m, lists) && i < FREE_LISTS
    ensures OnLists(Dropped(m, lists[i]), lists[i := []])
  {
    var r, after := Dropped(m, lists[i]), lists[i := []];
    forall j, c | 0 <= j < FREE_LISTS && c in after[j] ensures c in r && r[c].use == Free(j) {
      assert c in lists[j];
    }
  }

  lemma DroppedOthers(m: Blocks, lists: seq<seq<int>>, i: nat)
    requires OnLists(m, lists) && i < FREE_LISTS
    ensures var r := Dropped(m, lists[i]);
            && m.Keys == r.Keys && (forall b :: b in m ==> r[b].size == m[b].size)
            && (forall b :: b in m && !m[b].use.Free? ==> r[b] == m[b])
            && (forall b :: b in m && r[b] != m[b] ==> m[b].use.Free? && r[b].use == Lost && b in lists[i])
            && (forall b :: b in lists[i] ==> b in m && r[b].use == Lost)
  {
  }

  ghost function Elements(s: seq<int>): set<int> {
    set b | b in s
  }

  lemma ListDropped(m: Blocks, lists: seq<seq<int>>, start: int, end: int, i: nat)
    requires Ledger(m, lists, start, end) && i < FREE_LISTS
    ensures Ledger(Dropped(m, lists[i]), lists[i := []], start, end)
    ensures SameLive(m, Dropped(m, lists[i])) && Bytes(Dropped(m, lists[i])) == Bytes(m)
    ensures LostBlocks(Dropped(m, lists[i])) == LostBlocks(m) + Elements(lists[i])
    ensures forall b :: b in m && m[b].use == Lost ==> b in Dropped(m, lists[i]) && Dropped(m, lists[i])[b] == m[b]
  {
    var r := Dropped(m, lists[i]);
    DroppedSized(m, lists, i);
    DroppedLists(m, lists, i);
    DroppedOthers(m, lists, i);
    hide OnLists, Sized, Dropped, Apart, LostBlocks;
    DroppedApart(m, r);
    SameBytes(m, r);
    ChunkStays(m, r, start, end);
    LostMore(m, r, lists[i]);
  }

  lemma LostMore(m: Blocks, r: Blocks, s: seq<int>)
    requires m.Keys == r.Keys
    requires forall b :: b in m && r[b] != m[b] ==> !m[b].use.Lost? && r[b].use == Lost && b in s
    requires forall b :: b in s ==> b in m && r[b].use == Lost
    ensures LostBlocks(r) == LostBlocks(m) + Elements(s)
  {
    forall b ensures b in LostBlocks(r) <==> b in LostBlocks(m) + Elements(s) {
      assert b in m ==> r[b] == m[b] || b in s;
      assert b in s ==> b in m && r[b].use == Lost;
    }
  }

  lemma DroppedApart(m: Blocks, r: Blocks)
    requires Apart(m) && m.Keys == r.Keys && forall b :: b in m ==> r[b].size == m[b].size
    ensures Apart(r)
  {
  }

  // The front of the chunk is taken off.
  lemma ChunkCut(m: Blocks, lists: seq<seq<int>>, start: int, end: int, n: nat)
    requires Ledger(m, lists, start, end)
    requires 0 < n <= end - start && n % ALIGN == 0
    ensures start in m && m[start].size == end - start
    ensures Ledger(Cut(m, start, n, Lost), lists, start + n, end)
    ensures SameLive(m, Cut(m, start, n, Lost)) && LiveApart(m, start, n)
    ensures Bytes(Cut(m, start, n, Lost)) == Bytes(m)
    ensures start !in LostBlocks(m) && LostBlocks(Cut(m, start, n, Lost)) == LostBlocks(m) + {start}
  {
    hide Apart, Sized, OnLists, Bytes, RightSize;
    var r := Cut(m, start, n, Lost);
    SizedAt(m, start);
    KeptSizes(m[start], start, n);
    CutKeeps(m, start, n, Lost);
    CutSized(m, start, n, Lost);
    OffLists(m, r, lists);
    ChunkApart(m, start, end, n);
    hide LiveApart, LostBlocks, SameLive, ChunkIs;
    ChunkMoves(m, start, end, n);
    CutLost(m, start, n);
    CutLive(m, start, n, Lost);
  }

  lemma ChunkMoves(m: Blocks, start: int, end: int, n: nat)
    requires ChunkIs(m, start, end) && 0 < n <= end - start && (n < end - start ==> start + n !in m)
    ensures start in m && m[start] == Block(end - start, Chunk)
    ensures ChunkIs(Cut(m, start, n, Lost), start + n, end)
  {
  }

  lemma ChunkApart(m: Blocks, start: int, end: int, n: nat)
    requires Apart(m) && ChunkIs(m, start, end) && 0 < n <= end - start
    ensures LiveApart(m, start, n)
  {
  }

  // Cutting blocks that are in nobody's hands changes no live one, and what is
  // cut off to be in nobody's hands is added to those lost.
  lemma CutLive(m: Blocks, b: int, n: nat, use: Use)
    requires b in m && 0 < n <= m[b].size && !m[b].use.Live? && !use.Live? && (n < m[b].size ==> b + n !in m)
    ensures SameLive(m, Cut(m, b, n, use))
  {
  }

  lemma CutLost(m: Blocks, b: int, n: nat)
    requires b in m && 0 < n <= m[b].size && !m[b].use.Lost? && (n < m[b].size ==> b + n !in m)
    ensures b !in LostBlocks(m) && LostBlocks(Cut(m, b, n, Lost)) == LostBlocks(m) + {b}
  {
  }

  // What is left of the chunk goes onto the list of its size.
  lemma ChunkRetired(m: Blocks, lists: seq<seq<int>>, start: int, end: int, i: nat)
    requires Ledger(m, lists, start, end)
    requires end - start == ALIGN * (i + 1) <= MAX_BYTES
    ensures i < FREE_LISTS && start in m && m[start].use.Chunk? && m[start].size == end - start
    ensures Ledger(Marked(m, start, Free(i)), lists[i := [start] + lists[i]], end, end)
    ensures SameLive(m, Marked(m, start, Free(i)))
    ensures Bytes(Marked(m, start, Free(i))) == Bytes(m)
    ensures LostBlocks(Marked(m, start, Free(i))) == LostBlocks(m)
  {
    hide Apart, Sized, OnLists, Bytes, LostBlocks;
    SizedAt(m, start);
    Pushed(m, lists, start, i);
    hide RightSize;
    assert SameLive(m, Marked(m, start, Free(i)));
    hide SameLive;
    MarkedFound(m, start, Free(i));
  }

  // A new chunk from the system.
  lemma ChunkGrown(m: Blocks, lists: seq<seq<int>>, end: int, p: int, n: nat)
    requires Ledger(m, lists, end, end)
    requires Clear(m, p, n) && n > 0 && n % ALIGN == 0 && p % ALIGN == 0
    ensures Ledger(m[p := Block(n, Chunk)], lists, p, p + n)
    ensures SameLive(m, m[p := Block(n, Chunk)])
    ensures Bytes(m[p := Block(n, Chunk)]) == Bytes(m) + Span(p, n)
    ensures LostBlocks(m[p := Block(n, Chunk)]) == LostBlocks(m)
  {
    hide Apart, OnLists, Bytes;
    AddedKeeps(m, p, Block(n, Chunk));
    OffLists(m, m[p := Block(n, Chunk)], lists);
    assert Sized(m[p := Block(n, Chunk)]);
    hide Sized, RightSize, Clear;
    assert SameLive(m, m[p := Block(n, Chunk)]);
  }

  // A piece cut off a run in nobody's hands joins the end of its list.
  lemma PieceListed(m: Blocks, lists: seq<seq<int>>, start: int, end: int, b: int, n: nat, i: nat)
    requires Ledger(m, lists, start, end)
    requires b in m && m[b].use == Lost && n == ALIGN * (i + 1) <= MAX_BYTES && n <= m[b].size
    ensures i < FREE_LISTS
    ensures Ledger(Cut(m, b, n, Free(i)), lists[i := lists[i] + [b]], start, end)
    ensures SameLive(m, Cut(m, b, n, Free(i))) && Bytes(Cut(m, b, n, Free(i))) == Bytes(m)
    ensures LostBlocks(Cut(m, b, n, Free(i))) == LostBlocks(m) - {b} + (if n < m[b].size then {b + n} else {})
    ensures n < m[b].size ==> b + n !in LostBlocks(m)
  {
    hide Apart, Sized, OnLists, ChunkIs, Bytes, SameLive, RightSize, LostBlocks;
    var r := Cut(m, b, n, Free(i));
    SizedAt(m, b);
    PieceSizes(m[b], b, n, i);
    ListCount(m, lists);
    CutKeeps(m, b, n, Free(i));
    CutSized(m, b, n, Free(i));
    CutLive(m, b, n, Free(i));
    CutFound(m, b, n, i);
    ChunkStays(m, r, start, end);
    ListFreshly(m, r, lists, b, i, lists[i] + [b]);
  }

  lemma PieceSizes(k: Block, b: int, n: nat, i: nat)
    requires RightSize(b, k) && k.use == Lost && n == ALIGN * (i + 1) <= MAX_BYTES && n <= k.size
    ensures i < FREE_LISTS && RightSize(b, Block(n, Free(i)))
    ensures n < k.size ==> RightSize(b + n, Block(k.size - n, Lost))
  {
  }

  lemma ListCount(m: Blocks, lists: seq<seq<int>>)
    requires OnLists(m, lists)
    ensures |lists| == FREE_LISTS
  {
  }

  // Cutting a listed piece off a lost block: the rest is what is lost now.
  lemma CutFound(m: Blocks, b: int, n: nat, i: nat)
    requires b in m && m[b].use == Lost && 0 < n <= m[b].size && (n < m[b].size ==> b + n !in m)
    ensures LostBlocks(Cut(m, b, n, Free(i))) == LostBlocks(m) - {b} + (if n < m[b].size then {b + n} else {})
    ensures n < m[b].size ==> b + n !in LostBlocks(m)
  {
  }

  // The first piece of the run is kept apart for the caller.
  lemma PieceKept(m: Blocks, lists: seq<seq<int>>, start: int, end: int, b: int, n: nat)
    requires Ledger(m, lists, start, end)
    requires b in m && m[b].use == Lost && n % ALIGN == 0 && 0 < n < m[b].size
    ensures Ledger(Cut(m, b, n, Lost), lists, start, end)
    ensures SameLive(m, Cut(m, b, n, Lost)) && Bytes(Cut(m, b, n, Lost)) == Bytes(m)
    ensures LostBlocks(Cut(m, b, n, Lost)) == LostBlocks(m) + {b + n} && b + n !in LostBlocks(m)
  {
    hide Apart, Sized, OnLists, ChunkIs, Bytes, SameLive, RightSize, LostBlocks;
    var r := Cut(m, b, n, Lost);
    SizedAt(m, b);
    KeptSizes(m[b], b, n);
    CutKeeps(m, b, n, Lost);
    CutSized(m, b, n, Lost);
    CutLive(m, b, n, Lost);
    OffLists(m, r, lists);
    ChunkStays(m, r, start, end);
    CutBoth(m, b, n);
  }

  lemma KeptSizes(k: Block, b: int, n: nat)
    requires RightSize(b, k) && !k.use.Live? && !k.use.Free? && n % ALIGN == 0 && n <= k.size
    ensures RightSize(b, Block(n, Lost))
    ensures k.use.Lost? ==> RightSize(b + n, Block(k.size - n, Lost))
    ensures k.use.Chunk? ==> RightSize(b + n, Block(k.size - n, Chunk))
  {
  }

  // Cutting a lost block in two: both pieces are lost.
  lemma CutBoth(m: Blocks, b: int, n: nat)
    requires b in m && m[b].use == Lost && 0 < n < m[b].size && b + n !in m
    ensures LostBlocks(Cut(m, b, n, Lost)) == LostBlocks(m) + {b + n} && b + n !in LostBlocks(m)
  {
  }

  lemma SizeClass(n: nat)
    requires n >= 1
    ensures n <= MAX_BYTES ==> ALIGN <= RoundUp(n) <= MAX_BYTES && FreeListIndex(n) < FREE_LISTS
    ensures RoundUp(RoundUp(n)) == RoundUp(n) && FreeListIndex(RoundUp(n)) == FreeListIndex(n)
  {
  }

  // A block in nobody's hands is handed out.
  lemma HandedOut(m: Blocks, lists: seq<seq<int>>, start: int, end: int, b: int, n: nat)
    requires Ledger(m, lists, start, end)
    requires b in m && n >= 1 && m[b] == Block(Footprint(n), Lost)
    ensures Ledger(Marked(m, b, Live(n)), lists, start, end)
    ensures LiveBlocks(Marked(m, b, Live(n))) == LiveBlocks(m)[b := n] && b !in LiveBlocks(m)
    ensures LostBlocks(Marked(m, b, Live(n))) == LostBlocks(m) - {b}
    ensures Bytes(Marked(m, b, Live(n))) == Bytes(m)
  {
    hide Apart, Sized, OnLists, ChunkIs, Bytes, Footprint, LiveBlocks, LostBlocks;
    SizedAt(m, b);
    assert RightSize(b, Block(m[b].size, Live(n)));
    hide RightSize;
    Remarked(m, lists, start, end, b, Live(n));
    MarkedLive(m, b, n);
    MarkedFound(m, b, Live(n));
  }

  lemma MarkedFound(m: Blocks, b: int, use: Use)
    requires b in m && !use.Lost?
    ensures LostBlocks(Marked(m, b, use)) == if m[b].use.Lost? then LostBlocks(m) - {b} else LostBlocks(m)
  {
  }

  lemma MarkedLive(m: Blocks, b: int, n: nat)
    requires b in m
    ensures LiveBlocks(Marked(m, b, Live(n))) == LiveBlocks(m)[b := n]
    ensures b in LiveBlocks(m) <==> m[b].use.Live?
  {
  }

  // The first block of a list is handed out.
  lemma HeadHandedOut(m: Blocks, lists: seq<seq<int>>, start: int, end: int, i: nat, n: nat)
    requires Ledger(m, lists, start, end)
    requires i < FREE_LISTS && lists[i] != [] && 1 <= n <= MAX_BYTES && FreeListIndex(n) == i
    ensures lists[i][0] in m && m[lists[i][0]] == Block(Footprint(n), Free(i))
    ensures var r := Marked(m, lists[i][0], Live(n));
            && Ledger(r, lists[i := lists[i][1..]], start, end)
            && LiveBlocks(r) == LiveBlocks(m)[lists[i][0] := n] && lists[i][0] !in LiveBlocks(m)
            && LostBlocks(r) == LostBlocks(m) && Bytes(r) == Bytes(m)
  {
    var b := lists[i][0];
    Popped(m, lists, start, end, i, n);
    hide Ledger, Bytes, Footprint, FreeListIndex, LiveBlocks, LostBlocks;
    MarkedLive(m, b, n);
    MarkedFound(m, b, Live(n));
  }

  // A block handed out goes back to the front of the list of its size.
  lemma GivenBack(m: Blocks, lists: seq<seq<int>>, start: int, end: int, b: int, n: nat)
    requires Ledger(m, lists, start, end)
    requires b in m && m[b].use == Live(n) && n <= MAX_BYTES
    ensures n >= 1 && FreeListIndex(n) < FREE_LISTS
    ensures var i := FreeListIndex(n);
            var r := Marked(m, b, Free(i));
            && Ledger(r, lists[i := [b] + lists[i]], start, end)
            && LiveBlocks(r) == LiveBlocks(m) - {b}
            && LostBlocks(r) == LostBlocks(m) && Bytes(r) == Bytes(m)
  {
    hide Apart, Sized, OnLists, ChunkIs, Bytes, RightSize, FreeListIndex, LiveBlocks, LostBlocks;
    SizedAt(m, b);
    ClassOf(m[b], b, n);
    var i := FreeListIndex(n);
    ListCount(m, lists);
    Pushed(m, lists, b, i);
    ChunkStays(m, Marked(m, b, Free(i)), start, end);
    NoMoreLive(m, b, Free(i));
  }

  lemma ClassOf(k: Block, b: int, n: nat)
    requires RightSize(b, k) && k.use == Live(n) && n <= MAX_BYTES
    ensures n >= 1 && FreeListIndex(n) < FREE_LISTS && b % ALIGN == 0
    ensures k.size == ALIGN * (FreeListIndex(n) + 1) && k.size <= MAX_BYTES
  {
    SizeClass(n);
  }

  lemma NoMoreLive(m: Blocks, b: int, use: Use)
    requires b in m && m[b].use.Live? && use.Free?
    ensures LiveBlocks(Marked(m, b, use)) == LiveBlocks(m) - {b}
    ensures LostBlocks(Marked(m, b, use)) == LostBlocks(m)
  {
    var r := Marked(m, b, use);
    assert LiveBlocks(r).Keys == LiveBlocks(m).Keys - {b};
  }

  // A large block goes back to the system.
  lemma Returned(m: Blocks, lists: seq<seq<int>>, start: int, end: int, b: int)
    requires Ledger(m, lists, start, end)
    requires b in m && m[b].use.Live?
    ensures Ledger(m - {b}, lists, start, end)
    ensures LiveBlocks(m - {b}) == LiveBlocks(m) - {b} && LostBlocks(m - {b}) == LostBlocks(m)
    ensures Bytes(m - {b}) == Bytes(m) - Span(b, m[b].size)
  {
    assert Sized(m - {b});
    hide Apart, Sized, OnLists, ChunkIs, Bytes, LiveBlocks, LostBlocks, RightSize;
    RemovedKeeps(m, b);
    RemovedUses(m, b);
    OffLists(m, m - {b}, lists);
    ChunkStays(m, m - {b}, start, end);
  }

  lemma RemovedUses(m: Blocks, b: int)
    requires b in m && m[b].use.Live?
    ensures LiveBlocks(m - {b}) == LiveBlocks(m) - {b} && LostBlocks(m - {b}) == LostBlocks(m)
  {
    assert LiveBlocks(m - {b}).Keys == LiveBlocks(m).Keys - {b};
  }

  // A large block comes from the system.
  lemma Obtained(m: Blocks, lists: seq<seq<int>>, start: int, end: int, p: int, n: nat)
    requires Ledger(m, lists, start, end) && Clear(m, p, n) && p % ALIGN == 0 && n > MAX_BYTES
    ensures Ledger(m[p := Block(n, Live(n))], lists, start, end)
    ensures LiveBlocks(m[p := Block(n, Live(n))]) == LiveBlocks(m)[p := n] && p !in m && p !in LiveBlocks(m)
    ensures LostBlocks(m[p := Block(n, Live(n))]) == LostBlocks(m)
    ensures Bytes(m[p := Block(n, Live(n))]) == Bytes(m) + Span(p, n)
  {
    hide Apart, OnLists, ChunkIs, Bytes, Clear, LiveBlocks, LostBlocks;
    var r := m[p := Block(n, Live(n))];
    AddedKeeps(m, p, Block(n, Live(n)));
    assert RightSize(p, Block(n, Live(n)));
    hide RightSize;
    assert Sized(r);
    hide Sized;
    OffLists(m, r, lists);
    ChunkStays(m, r, start, end);
    ObtainedUses(m, p, n);
  }

  lemma ObtainedUses(m: Blocks, p: int, n: nat)
    requires p !in m
    ensures LiveBlocks(m[p := Block(n, Live(n))]) == LiveBlocks(m)[p := n] && p !in LiveBlocks(m)
    ensures LostBlocks(m[p := Block(n, Live(n))]) == LostBlocks(m)
  {
  }

  // A live block counts for another length of the same size class.
  lemma Relabelled(m: Blocks, lists: seq<seq<int>>, start: int, end: int, b: int, n: nat)
    requires Ledger(m, lists, start, end)
    requires b in m && m[b].use.Live? && n >= 1 && m[b].size == Footprint(n)
    ensures Ledger(Marked(m, b, Live(n)), lists, start, end)
    ensures LiveBlocks(Marked(m, b, Live(n))) == LiveBlocks(m)[b := n]
    ensures LostBlocks(Marked(m, b, Live(n))) == LostBlocks(m) && Bytes(Marked(m, b, Live(n))) == Bytes(m)
  {
    hide Apart, Sized, OnLists, ChunkIs, Bytes, Footprint, LiveBlocks, LostBlocks;
    SizedAt(m, b);
    assert RightSize(b, Block(m[b].size, Live(n)));
    hide RightSize;
    Remarked(m, lists, start, end, b, Live(n));
    MarkedLive(m, b, n);
    MarkedFound(m, b, Live(n));
  }
}
