// Where an arena's memory lies: the blocks obtained from the system, and the
// regions handed out of them.
module PoolLayout {

  const ALIGNMENT: nat := 8
  // The records in words of eight bytes (pool.c 24-62).
  const WORD: nat := 8
  const BLOCK_HEADER: nat := 3 * WORD
  const POOL_HEADER: nat := BLOCK_HEADER + 6 * WORD
  const LARGE_RECORD: nat := 2 * WORD
  const CLEANUP_RECORD: nat := 3 * WORD
  const MAX_FROM_POOL: nat := 4095
  const WRAP: nat := 0x1_0000_0000_0000_0000

  // An unsigned long, and what a pointer difference becomes as one.
  type Size = n: int | 0 <= n < WRAP

  function Unsigned(x: int): Size {
    x % WRAP
  }

  function AlignUp(a: int): (r: int)
    ensures a <= r < a + ALIGNMENT && r % ALIGNMENT == 0
  {
    (a + ALIGNMENT - 1) / ALIGNMENT * ALIGNMENT
  }

  datatype Block = Block(base: int, last: int, end: int)

  datatype Home = In(i: nat) | Own

  // A region handed out, and the block it was cut from or that it is its own.
  datatype Region = Region(base: int, size: nat, home: Home)

  type Heap = map<int, nat>

  function Header(i: nat): nat {
    if i == 0 then POOL_HEADER else BLOCK_HEADER
  }

  // Room for n bytes at p, beside everything obtained and not yet freed.
  ghost predicate Clear(heap: Heap, p: int, n: nat) {
    p > 0 && forall b :: b in heap ==> b + heap[b] <= p || p + n <= b
  }

  ghost predicate HeapApart(heap: Heap) {
    && (forall b :: b in heap ==> b > 0 && heap[b] > 0)
    && (forall a, b :: a in heap && b in heap && a < b ==> a + heap[a] <= b)
  }

  ghost predicate BlockOk(heap: Heap, b: Block, i: nat, size: nat) {
    && b.base in heap && heap[b.base] == size && b.base % ALIGNMENT == 0
    && b.end == b.base + size
    && b.base + Header(i) <= b.last <= b.end
  }

  ghost predicate BlocksOk(heap: Heap, blocks: seq<Block>, size: nat) {
    && (forall i :: 0 <= i < |blocks| ==> BlockOk(heap, blocks[i], i, size))
    && (forall i, j :: 0 <= i < j < |blocks| ==> blocks[i].base != blocks[j].base)
  }

  ghost predicate Owned(heap: Heap, blocks: seq<Block>, p: int) {
    p in heap && forall i :: 0 <= i < |blocks| ==> blocks[i].base != p
  }

  // A region cut from a block lies past its header and before its mark; a
  // region of its own is a whole system block that is none of the chain's.
  ghost predicate Placed(heap: Heap, blocks: seq<Block>, r: Region) {
    && (r.home.In? ==>
          && r.home.i < |blocks|
          && blocks[r.home.i].base + Header(r.home.i) <= r.base
          && r.base + r.size <= blocks[r.home.i].last)
    && (r.home.Own? ==> Owned(heap, blocks, r.base) && heap[r.base] == r.size)
  }

  ghost predicate Beside(r: Region, s: Region) {
    r.base + r.size <= s.base || s.base + s.size <= r.base
  }

  ghost predicate LiveOk(heap: Heap, blocks: seq<Block>, live: set<Region>) {
    && (forall r :: r in live ==> Placed(heap, blocks, r))
    && (forall r, s :: r in live && s in live && r != s && r.home == s.home ==> Beside(r, s))
  }

  // No two regions overlap, wherever they come from.
  lemma NoOverlap(heap: Heap, blocks: seq<Block>, size: nat, live: set<Region>, r: Region, s: Region)
    requires HeapApart(heap) && BlocksOk(heap, blocks, size) && LiveOk(heap, blocks, live)
    requires r in live && s in live && r != s
    ensures Beside(r, s)
  {
    if r.home != s.home {
      Within(heap, blocks, size, r);
      Within(heap, blocks, size, s);
      var a, b := Host(blocks, r), Host(blocks, s);
      assert a != b;
      if a < b { assert a + heap[a] <= b; } else { assert b + heap[b] <= a; }
    }
  }

  function Host(blocks: seq<Block>, r: Region): int {
    match r.home
    case In(i) => if i < |blocks| then blocks[i].base else 0
    case Own => r.base
  }

  lemma Within(heap: Heap, blocks: seq<Block>, size: nat, r: Region)
    requires BlocksOk(heap, blocks, size) && Placed(heap, blocks, r)
    ensures Host(blocks, r) in heap
    ensures Host(blocks, r) <= r.base && r.base + r.size <= Host(blocks, r) + heap[Host(blocks, r)]
  {
    if r.home.In? {
      assert BlockOk(heap, blocks[r.home.i], r.home.i, size);
    }
  }

  // ----------------------------------------------------- taking from a block

  function Bumped(blocks: seq<Block>, i: nat, m: int, n: nat): seq<Block>
    requires i < |blocks|
  {
    blocks[i := blocks[i].(last := m + n)]
  }

  lemma BumpKeeps(heap: Heap, blocks: seq<Block>, size: nat, live: set<Region>, i: nat, m: int, n: nat)
    requires BlocksOk(heap, blocks, size) && LiveOk(heap, blocks, live)
    requires i < |blocks| && blocks[i].last <= m && m + n <= blocks[i].end
    ensures BlocksOk(heap, Bumped(blocks, i, m, n), size)
    ensures LiveOk(heap, Bumped(blocks, i, m, n), live + {Region(m, n, In(i))})
  {
    var now := Bumped(blocks, i, m, n);
    assert BlockOk(heap, blocks[i], i, size);
    forall j | 0 <= j < |now| ensures BlockOk(heap, now[j], j, size) {
      assert BlockOk(heap, blocks[j], j, size);
    }
    forall r | r in live ensures Placed(heap, now, r) {
      assert Placed(heap, blocks, r);
    }
  }

  // (size_t)(end - m) >= n
  predicate HasRoom(m: int, end: int, n: Size) {
    Unsigned(end - m) >= n
  }

  // The test for room is on an unsigned difference: it is right for every size
  // exactly when the aligned mark does not lie past the end.
  lemma RoomTest(m: int, end: int)
    requires end - m < WRAP && m - end < WRAP
    ensures (forall n: Size :: HasRoom(m, end, n) <==> m + n <= end) <==> m <= end
  {
    if m > end {
      var n: Size := 0;
      assert HasRoom(m, end, n) && !(m + n <= end);
    } else {
      assert Unsigned(end - m) == end - m;
    }
  }

  // With blocks a multiple of the alignment long it never does, and with no
  // others: the mark may stand anywhere past the header.
  lemma AlignedFits(base: int, size: nat)
    requires base % ALIGNMENT == 0 && POOL_HEADER <= size
    ensures (forall last :: base + POOL_HEADER <= last <= base + size ==> AlignUp(last) <= base + size)
            <==> size % ALIGNMENT == 0
  {
    if size % ALIGNMENT != 0 {
      assert AlignUp(base + size) > base + size;
    }
  }

  // Aligned requests of at most max bytes each, one after the other in one
  // block: whether each passes the test and fits, and where the mark ends up.
  predicate AllFit(last: int, end: int, max: nat, ns: seq<Size>)
    decreases |ns|
  {
    ns == [] || (
      ns[0] <= max && HasRoom(AlignUp(last), end, ns[0]) && AlignUp(last) + ns[0] <= end &&
      AllFit(AlignUp(last) + ns[0], end, max, ns[1..]))
  }

  function MarkAfter(last: int, ns: seq<Size>): int
    decreases |ns|
  {
    if ns == [] then last else MarkAfter(AlignUp(last) + ns[0], ns[1..])
  }

  ghost predicate Fillable(last: int, end: int, max: nat) {
    exists ns: seq<Size> :: AllFit(last, end, max, ns) && MarkAfter(last, ns) == end
  }

  lemma {:induction false} Fill(last: int, end: int, max: nat)
    requires last % ALIGNMENT == 0 && last <= end && end - last < WRAP
    requires end - last <= max || ALIGNMENT <= max
    ensures Fillable(last, end, max)
    decreases end - last
  {
    var n: Size := if end - last <= max then end - last else ALIGNMENT;
    var ns: seq<Size> := [];
    if end - last > max {
      Fill(last + n, end, max);
      ns :| AllFit(last + n, end, max, ns) && MarkAfter(last + n, ns) == end;
    }
    OneMore(last, end, max, n, ns);
  }

  lemma OneMore(last: int, end: int, max: nat, n: Size, ns: seq<Size>)
    requires last % ALIGNMENT == 0 && n <= max && last + n <= end && end - last < WRAP
    requires AllFit(last + n, end, max, ns) && MarkAfter(last + n, ns) == end
    ensures Fillable(last, end, max)
  {
    assert AlignUp(last) == last && HasRoom(last, end, n);
    assert ([n] + ns)[1..] == ns;
    assert AllFit(last, end, max, [n] + ns) && MarkAfter(last, [n] + ns) == end;
  }

  function MaxFrom(size: nat): nat
    requires POOL_HEADER <= size
  {
    if size - POOL_HEADER < MAX_FROM_POOL then size - POOL_HEADER else MAX_FROM_POOL
  }

  // The pool's record of nine words comes off its first block, and no request
  // longer than 4095 bytes is served from blocks.
  lemma PoolLimits(size: nat)
    requires size >= 72
    ensures MaxFrom(size) == if size <= 4167 then size - 72 else 4095
    ensures MaxFrom(4096) == 4024
  {
  }

  // In a pool of any other length requests overrun the block: some fill it
  // exactly, and then the test finds room for every request within the pool's
  // limit.
  lemma OddPoolOverruns(base: int, size: nat, end: int)
    requires end == base + size
    requires base % ALIGNMENT == 0 && size % ALIGNMENT != 0 && POOL_HEADER <= size < WRAP
    ensures Fillable(base + POOL_HEADER, end, MaxFrom(size))
    ensures forall k: Size :: k <= MaxFrom(size) ==> Overruns(end, end, k)
  {
    hide Fillable, Overruns;
    Fill(base + POOL_HEADER, end, MaxFrom(size));
    forall k: Size | k <= MaxFrom(size) ensures Overruns(end, end, k) {
      PastEnd(end, k);
    }
  }

  lemma PastEnd(end: int, k: Size)
    requires end % ALIGNMENT != 0 && k <= MAX_FROM_POOL
    ensures Overruns(end, end, k)
  {
    assert end < AlignUp(end) < end + ALIGNMENT;
    assert Unsigned(end - AlignUp(end)) == end - AlignUp(end) + WRAP;
  }

  // The test passes with the mark at last, and the region ends past the block.
  predicate Overruns(last: int, end: int, k: Size) {
    HasRoom(AlignUp(last), end, k) && AlignUp(last) + k > end
  }

  // Whether palloc, for a request of n, returns with at most so many calls of
  // palloc_large in between, each of which calls it again for its record.
  predicate Returns(max: nat, n: nat, depth: nat)
    decreases depth
  {
    n <= max || (depth > 0 && Returns(max, LARGE_RECORD, depth - 1))
  }

  // The two functions stop calling each other exactly when the request, or else
  // the record, is no longer than the pool's limit.
  lemma RecursionEnds(n: nat, max: nat)
    ensures (exists depth: nat :: Returns(max, n, depth)) <==> n <= max || LARGE_RECORD <= max
  {
    hide Returns;
    if n <= max || LARGE_RECORD <= max {
      ReturnsOnce(max, n, 1);
      assert exists depth: nat :: Returns(max, n, depth);
    } else {
      forall depth: nat ensures !Returns(max, n, depth) {
        NeverReturns(max, n, depth);
      }
    }
  }

  lemma ReturnsOnce(max: nat, n: nat, depth: nat)
    requires (n <= max || LARGE_RECORD <= max) && depth == 1
    ensures Returns(max, n, depth)
  {
    assert n > max ==> Returns(max, LARGE_RECORD, depth - 1);
  }

  lemma {:induction false} NeverReturns(max: nat, n: nat, depth: nat)
    requires max < n && max < LARGE_RECORD
    ensures !Returns(max, n, depth)
    decreases depth
  {
    if depth > 0 {
      NeverReturns(max, LARGE_RECORD, depth - 1);
    }
  }

  // The first block from the current one on with room, or none.
  function FirstFit(blocks: seq<Block>, from: nat, n: nat, aligned: bool): (i: nat)
    requires from <= |blocks|
    ensures from <= i <= |blocks|
    ensures forall j :: from <= j < i ==> Mark(blocks[j], aligned) + n > blocks[j].end
    ensures i < |blocks| ==> Mark(blocks[i], aligned) + n <= blocks[i].end
    decreases |blocks| - from
  {
    if from == |blocks| || Mark(blocks[from], aligned) + n <= blocks[from].end then from
    else FirstFit(blocks, from + 1, n, aligned)
  }

  // The first block from the current one on that passes the test.
  function Chosen(blocks: seq<Block>, from: nat, n: Size, aligned: bool): (i: nat)
    requires from <= |blocks|
    ensures from <= i <= |blocks|
    decreases |blocks| - from
  {
    if from == |blocks| || HasRoom(Mark(blocks[from], aligned), blocks[from].end, n) then from
    else Chosen(blocks, from + 1, n, aligned)
  }

  // What it serves stays inside it.
  predicate Fits(blocks: seq<Block>, from: nat, n: Size, aligned: bool)
    requires from <= |blocks|
  {
    var i := Chosen(blocks, from, n, aligned);
    i < |blocks| ==> Mark(blocks[i], aligned) + n <= blocks[i].end
  }

  // The test at one block passes exactly when the request fits or the aligned
  // mark lies past the end.
  lemma RoomAt(heap: Heap, blocks: seq<Block>, size: nat, p: nat, n: Size, aligned: bool)
    requires BlocksOk(heap, blocks, size) && p < |blocks| && size < WRAP && n <= MAX_FROM_POOL
    ensures var m := Mark(blocks[p], aligned);
            && blocks[p].last <= m
            && (HasRoom(m, blocks[p].end, n) <==> m + n <= blocks[p].end || m > blocks[p].end)
  {
    assert BlockOk(heap, blocks[p], p, size);
    var m := Mark(blocks[p], aligned);
    if m > blocks[p].end {
      assert Unsigned(blocks[p].end - m) == blocks[p].end - m + WRAP;
    } else {
      assert Unsigned(blocks[p].end - m) == blocks[p].end - m;
    }
  }

  // The search is the first fit exactly when what it finds stays inside.
  lemma {:induction false} ChosenFits(heap: Heap, blocks: seq<Block>, size: nat, from: nat, n: Size, aligned: bool)
    requires BlocksOk(heap, blocks, size) && from <= |blocks| && size < WRAP && n <= MAX_FROM_POOL
    ensures Chosen(blocks, from, n, aligned) == FirstFit(blocks, from, n, aligned) <==> Fits(blocks, from, n, aligned)
    decreases |blocks| - from
  {
    hide BlocksOk, HasRoom, Mark;
    if from < |blocks| {
      RoomAt(heap, blocks, size, from, n, aligned);
      ChosenFits(heap, blocks, size, from + 1, n, aligned);
    }
  }

  // In a pool of a multiple of the alignment, and for any pool without
  // aligning, it always does.
  lemma {:induction false} AlwaysFits(heap: Heap, blocks: seq<Block>, size: nat, from: nat, n: Size, aligned: bool)
    requires BlocksOk(heap, blocks, size) && from <= |blocks| && size < WRAP && n <= MAX_FROM_POOL
    requires aligned ==> size % ALIGNMENT == 0
    ensures Fits(blocks, from, n, aligned)
    decreases |blocks| - from
  {
    if from < |blocks| {
      RoomAt(heap, blocks, size, from, n, aligned);
      assert BlockOk(heap, blocks[from], from, size);
      MarkInside(blocks[from].base, size, blocks[from].last);
      AlwaysFits(heap, blocks, size, from + 1, n, aligned);
    }
  }

  lemma MarkInside(base: int, size: nat, last: int)
    requires base % ALIGNMENT == 0 && base <= last <= base + size
    ensures size % ALIGNMENT == 0 ==> AlignUp(last) <= base + size
  {
  }

  function Mark(b: Block, aligned: bool): int {
    if aligned then AlignUp(b.last) else b.last
  }

  // -------------------------------------------------------- the system's part

  lemma AddedApart(heap: Heap, p: int, n: nat)
    requires HeapApart(heap) && Clear(heap, p, n) && n > 0
    ensures p !in heap && HeapApart(heap[p := n])
  {
  }

  lemma ChainGrows(heap: Heap, blocks: seq<Block>, size: nat, live: set<Region>, b: int, n: nat)
    requires HeapApart(heap) && Clear(heap, b, size) && b % ALIGNMENT == 0
    requires BlocksOk(heap, blocks, size) && LiveOk(heap, blocks, live)
    requires |blocks| >= 1 && BLOCK_HEADER + n <= size
    ensures var now := blocks + [Block(b, b + BLOCK_HEADER + n, b + size)];
            && BlocksOk(heap[b := size], now, size)
            && LiveOk(heap[b := size], now, live + {Region(b + BLOCK_HEADER, n, In(|blocks|))})
  {
    var now := blocks + [Block(b, b + BLOCK_HEADER + n, b + size)];
    AddedApart(heap, b, size);
    forall j | 0 <= j < |now| ensures BlockOk(heap[b := size], now[j], j, size) {
      if j < |blocks| { assert BlockOk(heap, blocks[j], j, size); }
    }
    forall r | r in live ensures Placed(heap[b := size], now, r) {
      assert Placed(heap, blocks, r);
    }
  }

  lemma LargeAdded(heap: Heap, blocks: seq<Block>, size: nat, live: set<Region>, p: int, n: nat)
    requires HeapApart(heap) && Clear(heap, p, n) && n > 0
    requires BlocksOk(heap, blocks, size) && LiveOk(heap, blocks, live)
    ensures BlocksOk(heap[p := n], blocks, size)
    ensures LiveOk(heap[p := n], blocks, live + {Region(p, n, Own)})
    ensures Owned(heap[p := n], blocks, p)
  {
    AddedApart(heap, p, n);
    forall j | 0 <= j < |blocks| ensures BlockOk(heap[p := n], blocks[j], j, size) {
      assert BlockOk(heap, blocks[j], j, size);
    }
    forall r | r in live ensures Placed(heap[p := n], blocks, r) {
      assert Placed(heap, blocks, r);
    }
  }

  lemma LargeRemoved(heap: Heap, blocks: seq<Block>, size: nat, live: set<Region>, p: int)
    requires Owned(heap, blocks, p)
    requires BlocksOk(heap, blocks, size) && LiveOk(heap, blocks, live)
    ensures BlocksOk(heap - {p}, blocks, size)
    ensures LiveOk(heap - {p}, blocks, live - {Region(p, heap[p], Own)})
  {
    forall j | 0 <= j < |blocks| ensures BlockOk(heap - {p}, blocks[j], j, size) {
      assert BlockOk(heap, blocks[j], j, size);
    }
    forall r | r in live - {Region(p, heap[p], Own)} ensures Placed(heap - {p}, blocks, r) {
      assert Placed(heap, blocks, r);
    }
  }
}
