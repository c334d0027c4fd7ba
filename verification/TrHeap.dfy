// The allocator of libcwmp/src/memory.c: free lists of 8, 16, .. 128 byte
// blocks carved from a moving chunk, larger requests passed to the system.
module TrHeap {
  import opened TrBlocks

  // What a byte of memory holds: data, or the k-th byte of a stored pointer.
  datatype Cell = Data(value: bv8) | Fragment(pointer: int, k: nat)

  type Memory = int -> Cell

  const LINK_SIZE: nat := 8

  predicate Holds(mem: Memory, a: int, v: int) {
    forall k :: 0 <= k < LINK_SIZE ==> mem(a + k) == Fragment(v, k)
  }

  function Linked(mem: Memory, a: int, v: int): (r: Memory)
    ensures Holds(r, a, v)
    ensures forall x :: !(a <= x < a + LINK_SIZE) ==> r(x) == mem(x)
  {
    x => if a <= x < a + LINK_SIZE then Fragment(v, x - a) else mem(x)
  }

  function LinkAt(mem: Memory, a: int): int {
    match mem(a) case Fragment(v, _) => v case Data(_) => 0
  }

  // The blocks reached from a list head by following the stored links.
  ghost predicate Chain(mem: Memory, head: int, s: seq<int>)
    decreases |s|
  {
    if s == [] then head == 0
    else head == s[0] && head != 0 && exists next :: Holds(mem, head, next) && Chain(mem, next, s[1..])
  }

  ghost predicate Same(mem: Memory, was: Memory, b: int, n: int) {
    forall x :: b <= x < b + n ==> mem(x) == was(x)
  }

  lemma {:induction false} ChainSame(mem: Memory, was: Memory, head: int, s: seq<int>)
    requires Chain(was, head, s)
    requires forall b :: b in s ==> Same(mem, was, b, LINK_SIZE)
    ensures Chain(mem, head, s)
    decreases |s|
  {
    if s != [] {
      var next :| Holds(was, head, next) && Chain(was, next, s[1..]);
      assert Same(mem, was, head, LINK_SIZE);
      forall k | 0 <= k < LINK_SIZE ensures mem(head + k) == Fragment(next, k) {
        assert mem(head + k) == was(head + k);
      }
      ChainSame(mem, was, next, s[1..]);
      assert Holds(mem, head, next) && Chain(mem, next, s[1..]);
    }
  }

  lemma ChainTail(mem: Memory, head: int, s: seq<int>)
    requires Chain(mem, head, s) && s != []
    ensures head == s[0] && Holds(mem, head, LinkAt(mem, head))
    ensures Chain(mem, LinkAt(mem, head), s[1..])
  {
    var next :| Holds(mem, head, next) && Chain(mem, next, s[1..]);
    assert mem(head + 0) == Fragment(next, 0);
  }

  lemma ChainPush(mem: Memory, head: int, s: seq<int>, b: int)
    requires Chain(mem, head, s) && b > 0
    requires Aside(b, s)
    ensures Chain(Linked(mem, b, head), b, [b] + s)
  {
    ChainSame(Linked(mem, b, head), mem, head, s);
    assert ([b] + s)[1..] == s;
    assert Holds(Linked(mem, b, head), b, head);
  }

  // The length of k pieces of n bytes.
  function Stride(n: nat, k: nat): nat {
    n * k
  }

  lemma StrideMore(n: nat, k: nat)
    ensures Stride(n, k + 1) == Stride(n, k) + n && Stride(n, 0) == 0
  {
  }

  lemma {:induction false} StrideSteps(n: nat, j: nat, k: nat)
    requires j < k
    ensures Stride(n, j) + n <= Stride(n, k)
    decreases k
  {
    hide Stride;
    StrideMore(n, k - 1);
    if j < k - 1 {
      StrideSteps(n, j, k - 1);
    }
  }

  lemma StrideAligned(n: nat, k: nat)
    requires n % ALIGN == 0
    ensures Stride(n, k) % ALIGN == 0 && (k >= 1 ==> Stride(n, k) >= n)
  {
    if k >= 1 {
      assert n * k == n + n * (k - 1);
    }
    assert n == ALIGN * (n / ALIGN);
    assert n * k == ALIGN * (n / ALIGN * k);
  }

  // The pieces base, base + n, .. of a freshly carved run.
  ghost function Pieces(base: int, n: nat, k: nat): (s: seq<int>)
    ensures |s| == k && forall j :: 0 <= j < k ==> s[j] == base + Stride(n, j)
  {
    seq(k, j requires 0 <= j => base + Stride(n, j))
  }

  lemma PiecesMore(base: int, n: nat, k: nat)
    ensures Pieces(base, n, k) + [base + Stride(n, k)] == Pieces(base, n, k + 1)
  {
  }

  // The first k pieces each point to the next.
  ghost predicate Threaded(mem: Memory, base: int, n: nat, k: nat) {
    forall j :: 0 <= j < k ==> Holds(mem, base + Stride(n, j), base + Stride(n, j + 1))
  }

  lemma ThreadedMore(mem: Memory, base: int, n: nat, k: nat, at: int)
    requires Threaded(mem, base, n, k) && n >= LINK_SIZE && at == base + Stride(n, k)
    ensures at + n == base + Stride(n, k + 1)
    ensures Threaded(Linked(mem, at, at + n), base, n, k + 1)
  {
    hide Stride;
    StrideMore(n, k);
    Threads(mem, base, n, k, at, at + n);
  }

  lemma Threads(mem: Memory, base: int, n: nat, k: nat, at: int, v: int)
    requires Threaded(mem, base, n, k) && n >= LINK_SIZE && at == base + Stride(n, k)
    ensures Threaded(Linked(mem, at, v), base, n, k)
  {
    hide Stride;
    var now := Linked(mem, at, v);
    forall j | 0 <= j < k ensures Holds(now, base + Stride(n, j), base + Stride(n, j + 1)) {
      assert Holds(mem, base + Stride(n, j), base + Stride(n, j + 1));
      StrideSteps(n, j, k);
    }
  }

  lemma NoPieces(mem: Memory, base: int, n: nat)
    ensures Stride(n, 0) == 0 && Threaded(mem, base, n, 0) && Pieces(base, n, 0) == []
  {
  }

  // The last link closes the list.
  lemma ThreadedEnd(mem: Memory, base: int, n: nat, k: nat, at: int)
    requires Threaded(mem, base, n, k) && n >= LINK_SIZE && at == base + Stride(n, k) && base > 0
    ensures Chain(Linked(mem, at, 0), base, Pieces(base, n, k + 1))
  {
    hide Stride;
    Threads(mem, base, n, k, at, 0);
    var now, s := Linked(mem, at, 0), Pieces(base, n, k + 1);
    StrideMore(n, 0);
    ThreadedFrom(now, base, n, k, 0, s);
    assert s[0..] == s;
  }

  lemma {:induction false} ThreadedFrom(mem: Memory, base: int, n: nat, k: nat, j: nat, s: seq<int>)
    requires Threaded(mem, base, n, k) && base > 0 && j <= k
    requires s == Pieces(base, n, k + 1) && Holds(mem, base + Stride(n, k), 0)
    ensures Chain(mem, base + Stride(n, j), s[j..])
    decreases k - j
  {
    hide Stride, Pieces, Holds;
    var here := base + Stride(n, j);
    var next := if j == k then 0 else base + Stride(n, j + 1);
    if j < k {
      ThreadedFrom(mem, base, n, k, j + 1, s);
    }
    assert s[j..][1..] == s[j + 1..];
    assert Holds(mem, here, next) && Chain(mem, next, s[j..][1..]);
  }

  // Nothing the program wrote into a block it holds has changed.
  ghost predicate LiveSame(m: Blocks, mem: Memory, was: Memory) {
    forall b :: b in m && m[b].use.Live? ==> Same(mem, was, b, m[b].size)
  }

  // The blocks handed out, and what was written into them, are as before.
  ghost predicate Unharmed(m: Blocks, now: Blocks, mem: Memory, was: Memory) {
    SameLive(m, now) && LiveSame(m, mem, was)
  }

  lemma UnharmedSelf(m: Blocks, mem: Memory)
    ensures Unharmed(m, m, mem, mem)
  {
  }

  lemma UnharmedThen(a: Blocks, b: Blocks, c: Blocks, first: Memory, second: Memory, third: Memory)
    requires Unharmed(a, b, second, first) && Unharmed(b, c, third, second)
    ensures Unharmed(a, c, third, first)
  {
    forall p | p in a && a[p].use.Live? ensures Same(third, first, p, a[p].size) {
      assert Same(second, first, p, a[p].size) && Same(third, second, p, b[p].size);
    }
  }

  lemma LiveApartBefore(was: Blocks, m: Blocks, mem: Memory, wasMem: Memory, p: int, n: nat)
    requires Unharmed(was, m, mem, wasMem) && LiveApart(m, p, n)
    ensures LiveApart(was, p, n)
  {
  }

  lemma CutHarmless(m: Blocks, b: int, n: nat, use: Use, mem: Memory)
    requires b in m && 0 < n <= m[b].size && !m[b].use.Live? && !use.Live?
    requires Apart(m)
    ensures Unharmed(m, Cut(m, b, n, use), mem, mem)
  {
  }

  ghost predicate Below(m: Blocks, limit: int) {
    forall b :: b in m ==> b + m[b].size <= limit
  }

  lemma AddedBelow(m: Blocks, p: int, n: nat, use: Use, limit: int)
    requires Below(m[p := Block(n, Lost)], limit)
    ensures Below(m[p := Block(n, use)], limit)
  {
    var r, now := m[p := Block(n, Lost)], m[p := Block(n, use)];
    forall b | b in now ensures b + now[b].size <= limit {
      assert b in r && r[b].size == now[b].size;
    }
  }

  lemma CutBelow(m: Blocks, b: int, n: nat, use: Use, limit: int)
    requires Below(m, limit) && b in m && 0 < n <= m[b].size
    ensures Below(Cut(m, b, n, use), limit)
  {
  }

  lemma ListDroppedHarmless(m: Blocks, lists: seq<seq<int>>, i: nat, mem: Memory, limit: int)
    requires Below(m, limit) && OnLists(m, lists) && i < FREE_LISTS
    ensures Below(Dropped(m, lists[i]), limit) && Unharmed(m, Dropped(m, lists[i]), mem, mem)
  {
  }

  lemma LiveApartLess(m: Blocks, p: int, n: nat, whole: nat)
    requires LiveApart(m, p, whole) && n <= whole
    ensures LiveApart(m, p, n)
  {
  }

  lemma NotListed(m: Blocks, lists: seq<seq<int>>, b: int, i: nat)
    requires OnLists(m, lists) && i < FREE_LISTS && b in m && !m[b].use.Free?
    ensures b !in Elements(lists[i])
  {
  }

  lemma ApartFromLive(m: Blocks, p: int)
    requires Apart(m) && p in m && !m[p].use.Live?
    ensures LiveApart(m, p, m[p].size)
  {
  }

  // Room beside the same blocks, only counted for other uses.
  lemma ClearBefore(was: Blocks, m: Blocks, p: int, n: nat)
    requires Clear(m, p, n) && forall b :: b in was ==> b in m && m[b].size == was[b].size
    ensures Clear(was, p, n)
  {
  }

  lemma NullHead(mem: Memory, head: int, s: seq<int>)
    requires Chain(mem, head, s)
    ensures head == 0 <==> s == []
  {
  }

  lemma LiveAt(m: Blocks, p: int)
    requires Apart(m) && Sized(m) && p in LiveBlocks(m)
    ensures p in m && m[p] == Block(Footprint(LiveBlocks(m)[p]), Live(LiveBlocks(m)[p]))
    ensures LiveBlocks(m)[p] >= 1 && p > 0 && p % ALIGN == 0
  {
    assert RightSize(p, m[p]);
  }

  lemma LiveSameSelf(m: Blocks, mem: Memory)
    ensures LiveSame(m, mem, mem)
  {
  }

  lemma OthersSame(m: Blocks, mem: Memory, was: Memory, b: int)
    requires Apart(m) && b in m
    requires forall x :: !(b <= x < b + m[b].size) ==> mem(x) == was(x)
    ensures LiveSame(m - {b}, mem, was)
  {
  }

  function Shifted(x: int, to: int, from: int): int {
    from + (x - to)
  }

  function Copied(mem: Memory, to: int, from: int, n: nat): (r: Memory)
    ensures forall x :: to <= x < to + n ==> r(x) == mem(Shifted(x, to, from))
    ensures forall x :: !(to <= x < to + n) ==> r(x) == mem(x)
  {
    x => if to <= x < to + n then mem(Shifted(x, to, from)) else mem(x)
  }

  // The n bytes at a are those that were at b.
  ghost predicate Matches(mem: Memory, a: int, was: Memory, b: int, n: nat) {
    forall x :: a <= x < a + n ==> mem(x) == was(Shifted(x, a, b))
  }

  // What realloc promises: the first bytes are kept, the other blocks handed
  // out are as before, and the old block is handed out no more.
  ghost predicate Resized(was: Blocks, now: Blocks, mem: Memory, before: Memory, p: int, r: int, n: nat) {
    && p in LiveBlocks(was)
    && LiveBlocks(now) == (LiveBlocks(was) - {p})[r := n]
    && (r in LiveBlocks(was) ==> r == p)
    && Matches(mem, r, before, p, if n > LiveBlocks(was)[p] then LiveBlocks(was)[p] else n)
    && LiveSame(was - {p}, mem, before)
  }

  // Counting a block for another length keeps every byte.
  lemma Restated(was: Blocks, now: Blocks, mem: Memory, p: int, n: nat)
    requires p in LiveBlocks(was) && LiveBlocks(now) == LiveBlocks(was)[p := n]
    ensures Resized(was, now, mem, mem, p, p, n)
  {
    hide LiveBlocks;
    assert (LiveBlocks(was) - {p})[p := n] == LiveBlocks(was)[p := n];
    LiveSameSelf(was - {p}, mem);
  }

  lemma SameClass(a: nat, b: nat)
    requires 1 <= a <= MAX_BYTES && b >= 1 && RoundUp(a) == RoundUp(b)
    ensures Footprint(a) == Footprint(b)
  {
    SizeClass(a);
  }

  lemma RelabelledBelow(m: Blocks, b: int, use: Use, limit: int)
    requires Below(m, limit) && b in m
    ensures Below(Marked(m, b, use), limit)
  {
  }

  lemma {:induction false} Moved(was: Blocks, m: Blocks, now: Blocks,
                                 before: Memory, first: Memory, second: Memory, mem: Memory, p: int, r: int, n: nat)
    requires Apart(was) && Sized(was) && Apart(m) && Sized(m) && Apart(now) && Sized(now)
    requires p in LiveBlocks(was) && r !in LiveBlocks(was)
    requires LiveBlocks(m) == LiveBlocks(was)[r := n] && LiveBlocks(now) == LiveBlocks(m) - {p}
    requires LiveSame(was, first, before) && LiveSame(m - {r}, second, first) && LiveSame(now, mem, second)
    requires second == Copied(first, r, p, if n > LiveBlocks(was)[p] then LiveBlocks(was)[p] else n)
    ensures Resized(was, now, mem, before, p, r, n)
  {
    hide Apart, Sized, Same, LiveSame, LiveBlocks, Footprint;
    forall b | b in LiveBlocks(was) && b != p
      ensures b in was && Same(mem, before, b, was[b].size)
    {
      OtherKept(was, m, now, before, first, second, mem, r, b);
    }
    OthersKept(was, mem, before, p);
    LiveAt(was, p);
    LiveAt(now, r);
    LiveSameAt(was, first, before, p);
    LiveSameAt(now, mem, second, r);
    ContentKept(before, first, second, mem, p, was[p].size, r, now[r].size,
                if n > LiveBlocks(was)[p] then LiveBlocks(was)[p] else n);
  }

  lemma LiveSameAt(m: Blocks, mem: Memory, was: Memory, b: int)
    requires LiveSame(m, mem, was) && b in m && m[b].use.Live?
    ensures Same(mem, was, b, m[b].size)
  {
  }

  lemma OthersKept(m: Blocks, mem: Memory, was: Memory, p: int)
    requires forall b :: b in LiveBlocks(m) && b != p ==> b in m && Same(mem, was, b, m[b].size)
    ensures LiveSame(m - {p}, mem, was)
  {
    forall b | b in m - {p} && m[b].use.Live? ensures Same(mem, was, b, m[b].size) {
      assert b in LiveBlocks(m);
    }
  }

  lemma OtherKept(was: Blocks, m: Blocks, now: Blocks,
                  before: Memory, first: Memory, second: Memory, mem: Memory, r: int, b: int)
    requires Apart(was) && Sized(was) && Apart(m) && Sized(m) && Apart(now) && Sized(now)
    requires b in LiveBlocks(was) && b in LiveBlocks(m) && b in LiveBlocks(now) && b != r
    requires LiveBlocks(was)[b] == LiveBlocks(m)[b] == LiveBlocks(now)[b]
    requires LiveSame(was, first, before) && LiveSame(m - {r}, second, first) && LiveSame(now, mem, second)
    ensures b in was && Same(mem, before, b, was[b].size)
  {
    LiveAt(was, b);
    LiveAt(m, b);
    LiveAt(now, b);
    hide Apart, Sized, LiveBlocks, Footprint;
    assert Same(first, before, b, was[b].size);
    assert Same(second, first, b, (m - {r})[b].size);
    assert Same(mem, second, b, now[b].size);
  }

  lemma SameAt(mem: Memory, was: Memory, b: int, n: nat, x: int)
    requires Same(mem, was, b, n) && b <= x < b + n
    ensures mem(x) == was(x)
  {
  }

  // The bytes kept: copied from the block before it is freed, and not written
  // when the new block was found or the old one freed.
  lemma ContentKept(before: Memory, first: Memory, second: Memory, mem: Memory,
                    p: int, size: nat, r: int, newSize: nat, n: nat)
    requires Same(first, before, p, size) && Same(mem, second, r, newSize)
    requires n <= size && n <= newSize && second == Copied(first, r, p, n)
    ensures Matches(mem, r, before, p, n)
  {
    hide Same, Copied;
    forall x | r <= x < r + n ensures mem(x) == before(Shifted(x, r, p)) {
      ByteKept(before, first, second, mem, p, size, r, newSize, n, x, Shifted(x, r, p));
    }
  }

  lemma ByteKept(before: Memory, first: Memory, second: Memory, mem: Memory,
                 p: int, size: nat, r: int, newSize: nat, n: nat, x: int, y: int)
    requires Same(first, before, p, size) && Same(mem, second, r, newSize)
    requires n <= size && n <= newSize && second == Copied(first, r, p, n)
    requires r <= x < r + n && y == Shifted(x, r, p)
    ensures mem(x) == before(y)
  {
    SameAt(mem, second, r, newSize, x);
    CopiedAt(first, r, p, n, x, y);
    SameAt(first, before, p, size, y);
  }

  lemma CopiedAt(mem: Memory, to: int, from: int, n: nat, x: int, y: int)
    requires to <= x < to + n && y == Shifted(x, to, from)
    ensures Copied(mem, to, from, n)(x) == mem(y)
  {
    hide Copied;
  }

  lemma ChunkAligned(m: Blocks, lists: seq<seq<int>>, start: int, end: int)
    requires Ledger(m, lists, start, end)
    ensures start <= end && (end - start) % ALIGN == 0
  {
    if start < end {
      assert RightSize(start, m[start]);
    }
  }

  lemma UnharmedLive(a: Blocks, b: Blocks, mem: Memory, was: Memory)
    requires Unharmed(a, b, mem, was)
    ensures LiveBlocks(a) == LiveBlocks(b)
  {
    forall p | p in LiveBlocks(a) || p in LiveBlocks(b)
      ensures p in LiveBlocks(a) && p in LiveBlocks(b) && LiveBlocks(a)[p] == LiveBlocks(b)[p]
    {
      assert p in a || p in b;
    }
    assert LiveBlocks(a).Keys == LiveBlocks(b).Keys;
  }

  ghost predicate Aside(b: int, s: seq<int>) {
    forall c :: c in s ==> b + LINK_SIZE <= c || c + LINK_SIZE <= b
  }

  lemma ListAside(m: Blocks, lists: seq<seq<int>>, i: nat, b: int)
    requires Apart(m) && Sized(m) && OnLists(m, lists) && i < FREE_LISTS
    requires b in m && m[b].use != Free(i) && m[b].size >= LINK_SIZE
    ensures Aside(b, lists[i])
  {
    forall c | c in lists[i] ensures b + LINK_SIZE <= c || c + LINK_SIZE <= b {
      assert RightSize(c, m[c]);
    }
  }

  // A write into a block that is not handed out harms none that is.
  lemma LiveSameApart(m: Blocks, mem: Memory, was: Memory, b: int)
    requires Apart(m) && b in m && !m[b].use.Live?
    requires forall x :: !(b <= x < b + m[b].size) ==> mem(x) == was(x)
    ensures LiveSame(m, mem, was)
  {
  }

  // A write into a block that is on none of these lists leaves their chains.
  lemma ChainApart(m: Blocks, lists: seq<seq<int>>, mem: Memory, was: Memory, head: int, i: nat, b: int)
    requires Apart(m) && Sized(m) && OnLists(m, lists) && i < FREE_LISTS
    requires Chain(was, head, lists[i])
    requires b in m && m[b].use != Free(i)
    requires forall x :: !(b <= x < b + m[b].size) ==> mem(x) == was(x)
    ensures Chain(mem, head, lists[i])
  {
    forall c | c in lists[i] ensures Same(mem, was, c, LINK_SIZE) {
      assert RightSize(c, m[c]);
    }
    ChainSame(mem, was, head, lists[i]);
  }

  // How many objects of this size the chunk yields when nobjs are asked for and
  // left bytes are unspent; with no more than one object's room a new chunk is
  // taken and yields them all.
  function Yield(left: int, size: nat, nobjs: nat): (k: nat)
    requires size > 0 && nobjs >= 1
    ensures k >= 1
  {
    if left > Stride(size, nobjs) || left <= size then nobjs else left / size
  }

  // The lists after a leftover too small to be cut was put onto its own.
  ghost function Restocked(lists: seq<seq<int>>, start: int, left: int, size: nat): seq<seq<int>>
    requires |lists| == FREE_LISTS && size <= MAX_BYTES
  {
    if 0 < left <= size then
      var i := FreeListIndex(left);
      lists[i := [start] + lists[i]]
    else lists
  }

  lemma RestockedAt(lists: seq<seq<int>>, start: int, left: int, size: nat)
    requires |lists| == FREE_LISTS && 0 < size <= MAX_BYTES && size % ALIGN == 0 && left % ALIGN == 0
    requires lists[FreeListIndex(size)] == []
    ensures Elements(Restocked(lists, start, left, size)[FreeListIndex(size)])
            == if left == size then {start} else {}
  {
  }

  // The lists after a refill for n bytes: the leftover retired, the list of n
  // bytes replaced by the pieces of the run after the first.
  ghost function Refilled(lists: seq<seq<int>>, start: int, left: int, n: nat, run: int): seq<seq<int>>
    requires |lists| == FREE_LISTS && 0 < n <= MAX_BYTES
  {
    Restocked(lists, start, left, n)
      [FreeListIndex(n) := Pieces(run + n, n, Yield(left, n, OBJECTS_PER_REFILL) - 1)]
  }

  // A request strands a leftover exactly when its list is empty and one object
  // of its size is left: the leftover joins the list just before the list is
  // replaced.
  ghost predicate Strands(lists: seq<seq<int>>, left: int, n: nat)
    requires |lists| == FREE_LISTS && n >= 1
  {
    n <= MAX_BYTES && lists[FreeListIndex(n)] == [] && left == RoundUp(n)
  }

  // What the chunk has left, and how much the system gave in all.
  datatype Supply = Supply(left: int, heap: nat)

  // The length asked of the system for a new chunk.
  function Fetched(total: nat, heap: nat): nat {
    2 * total + RoundUp(heap / 16)
  }

  // The supply after nobjs objects of this size were asked for.
  function Served(s: Supply, size: nat, nobjs: nat): Supply
    requires size > 0
  {
    var total := Stride(size, nobjs);
    if s.left > total then s.(left := s.left - total)
    else if s.left > size then s.(left := s.left - Stride(size, s.left / size))
    else Supply(Fetched(total, s.heap) - total, s.heap + Fetched(total, s.heap))
  }

  // The supply after one request.
  ghost function Drawn(s: Supply, lists: seq<seq<int>>, n: nat): Supply
    requires |lists| == FREE_LISTS && n >= 1
  {
    if n <= MAX_BYTES && lists[FreeListIndex(n)] == [] then Served(s, RoundUp(n), OBJECTS_PER_REFILL) else s
  }

  // The first requests on a new heap: ten objects of eight bytes are cut from a
  // chunk twice as long, and the next chunk is longer by a sixteenth of the first.
  lemma FirstDraws(lists: seq<seq<int>>)
    requires |lists| == FREE_LISTS && lists[0] == [] && lists[15] == []
    ensures Drawn(Supply(0, 0), lists, 1) == Supply(80, 160)
    ensures Drawn(Supply(80, 160), lists, 8) == Supply(0, 160)
    ensures Drawn(Supply(80, 160), lists, 128) == Supply(1296, 2736)
    ensures Drawn(Supply(80, 160), lists, 129) == Supply(80, 160)
  {
    assert FreeListIndex(1) == 0 && FreeListIndex(8) == 0 && FreeListIndex(121) == 15 && FreeListIndex(128) == 15;
  }

  lemma RefilledFrom(lists: seq<seq<int>>, start: int, left: int, n: nat, run: int, k: nat, now: seq<seq<int>>)
    requires |lists| == FREE_LISTS && 0 < n <= MAX_BYTES
    requires k == Yield(left, n, OBJECTS_PER_REFILL)
    requires now == Restocked(lists, start, left, n)[FreeListIndex(n) := Pieces(run + n, n, k - 1)]
    ensures now == Refilled(lists, start, left, n, run)
  {
  }

  // A single object means the chunk had room for it and no leftover was retired.
  lemma OneOnly(lists: seq<seq<int>>, start: int, left: int, n: nat, run: int)
    requires |lists| == FREE_LISTS && 0 < n <= MAX_BYTES
    requires lists[FreeListIndex(n)] == [] && Yield(left, n, OBJECTS_PER_REFILL) == 1
    ensures left != n && Refilled(lists, start, left, n, run) == Restocked(lists, start, left, n)
  {
    assert left > n;
    assert lists[FreeListIndex(n) := []] == lists;
  }

  lemma Fetch(total: nat, heap: nat)
    requires total > 0 && total % ALIGN == 0
    ensures 2 * total + RoundUp(heap) > total && (2 * total + RoundUp(heap)) % ALIGN == 0
  {
    assert total == ALIGN * (total / ALIGN);
    assert RoundUp(heap) == ALIGN * (RoundUp(heap) / ALIGN);
    assert 2 * total + RoundUp(heap) == ALIGN * (2 * (total / ALIGN) + RoundUp(heap) / ALIGN);
  }

  lemma Share(left: nat, size: nat)
    requires 0 < size <= left
    ensures left / size >= 1 && Stride(size, left / size) <= left
  {
  }

  class TrHeap {
    var startFree: int
    var endFree: int
    var heapSize: nat
    var freeList: array<int>
    var mem: Memory
    var systemBreak: int

    ghost var blocks: Blocks
    ghost var lists: seq<seq<int>>

    ghost predicate Chains()
      reads this, freeList
    {
      && freeList.Length == FREE_LISTS && |lists| == FREE_LISTS
      && forall i :: 0 <= i < FREE_LISTS ==> Chain(mem, freeList[i], lists[i])
    }

    ghost predicate Break()
      reads this
    {
      && systemBreak > 0 && systemBreak % ALIGN == 0
      && Below(blocks, systemBreak)
    }

    ghost predicate Valid()
      reads this, freeList
    {
      && Ledger(blocks, lists, startFree, endFree)
      && Chains() && Break()
      && heapSize % ALIGN == 0
    }

    ghost function Stock(): Supply
      reads this
    {
      Supply(endFree - startFree, heapSize)
    }

    constructor ()
      ensures Valid() && blocks == map[] && fresh(freeList)
      ensures lists == seq(FREE_LISTS, _ => []) && Stock() == Supply(0, 0)
    {
      startFree, endFree, heapSize := 0, 0, 0;
      freeList := new int[FREE_LISTS](_ => 0);
      mem := _ => Data(0);
      systemBreak := ALIGN;
      blocks := map[];
      lists := seq(FREE_LISTS, _ => []);
    }

    // The system's malloc: room that overlaps nothing the program holds, the
    // address otherwise unknown to the caller.
    method SystemMalloc(n: nat) returns (p: int)
      requires n > 0 && Break() && Apart(blocks)
      modifies this`systemBreak, this`blocks
      ensures Break() && Clear(old(blocks), p, n) && p % ALIGN == 0
      ensures Apart(blocks) && blocks == old(blocks)[p := Block(n, Lost)] && p !in old(blocks)
      ensures Bytes(blocks) == old(Bytes(blocks)) + Span(p, n)
    {
      p := systemBreak;
      AddedKeeps(blocks, p, Block(n, Lost));
      blocks := blocks[p := Block(n, Lost)];
      systemBreak := p + RoundUp(n);
    }

    // What is left of the chunk is put onto the list of its size.
    method Retire()
      requires Valid() && 0 < endFree - startFree <= MAX_BYTES
      modifies this`mem, this`blocks, this`lists, this`startFree, freeList
      ensures Valid() && startFree == endFree
      ensures Unharmed(old(blocks), blocks, mem, old(mem))
      ensures forall b :: b in old(blocks) ==> b in blocks && blocks[b].size == old(blocks)[b].size
      ensures LostBlocks(blocks) == old(LostBlocks(blocks)) && Bytes(blocks) == old(Bytes(blocks))
      ensures var i := FreeListIndex(old(endFree - startFree));
              lists == old(lists)[i := [old(startFree)] + old(lists)[i]]
    {
      hide Apart, Sized, OnLists, Bytes, LostBlocks, Chain, SameLive, Holds;
      var i := FreeListIndex(endFree - startFree);
      assert RightSize(startFree, blocks[startFree]) by { SizedAt(blocks, startFree); }
      ChunkRetired(blocks, lists, startFree, endFree, i);
      ghost var was := mem;
      assert Aside(startFree, lists[i]) by { ListAside(blocks, lists, i, startFree); }
      mem := Linked(mem, startFree, freeList[i]);
      forall j | 0 <= j < FREE_LISTS ensures Chain(mem, freeList[j], lists[j]) {
        ChainApart(blocks, lists, mem, was, freeList[j], j, startFree);
      }
      LiveSameApart(blocks, mem, was, startFree);
      PositiveAt(blocks, startFree);
      ChainPush(was, freeList[i], lists[i], startFree);
      freeList[i] := startFree;
      blocks := Marked(blocks, startFree, Free(i));
      lists := lists[i := [startFree] + lists[i]];
      startFree := endFree;
    }

    // The leftover is retired and a new chunk taken from the system.
    method Replenish(get: nat)
      requires Valid() && get > 0 && get % ALIGN == 0 && endFree - startFree <= MAX_BYTES
      modifies this, freeList
      ensures Valid() && freeList == old(freeList)
      ensures endFree - startFree == get && heapSize == old(heapSize) + get
      ensures Unharmed(old(blocks), blocks, mem, old(mem))
      ensures LostBlocks(blocks) == old(LostBlocks(blocks))
      ensures lists == if old(startFree) < old(endFree)
                       then var i := FreeListIndex(old(endFree - startFree));
                            old(lists)[i := [old(startFree)] + old(lists)[i]]
                       else old(lists)
      ensures Clear(old(blocks), startFree, get)
      ensures Bytes(blocks) == old(Bytes(blocks)) + Span(startFree, get)
    {
      hide Apart, Sized, OnLists, Bytes, LostBlocks, Chain, Unharmed, Ledger, Clear;
      UnharmedSelf(blocks, mem);
      ChunkAligned(blocks, lists, startFree, endFree);
      if endFree > startFree {
        Retire();
      }
      ghost var m, was := blocks, mem;
      NewChunk(get);
      UnharmedThen(old(blocks), m, blocks, old(mem), was, mem);
      ClearBefore(old(blocks), m, startFree, get);
    }

    // A new chunk from the system, the old one being used up.
    method NewChunk(get: nat)
      requires Valid() && get > 0 && get % ALIGN == 0 && startFree == endFree
      modifies this`startFree, this`endFree, this`heapSize, this`systemBreak, this`blocks
      ensures Valid() && endFree - startFree == get && heapSize == old(heapSize) + get
      ensures Unharmed(old(blocks), blocks, mem, mem) && LostBlocks(blocks) == old(LostBlocks(blocks))
      ensures Clear(old(blocks), startFree, get) && Bytes(blocks) == old(Bytes(blocks)) + Span(startFree, get)
    {
      hide Apart, Sized, OnLists, ChunkIs, Bytes, LostBlocks, Chain, SameLive, Clear, Below, Marked;
      ghost var m := blocks;
      startFree := SystemMalloc(get);
      ChunkGrown(m, lists, endFree, startFree, get);
      AddedMarked(m, startFree, get, Chunk);
      AddedBelow(m, startFree, get, Chunk, systemBreak);
      blocks := Marked(blocks, startFree, Chunk);
      UnharmedSelf(m, mem);
      heapSize := heapSize + get;
      endFree := startFree + get;
    }

    // The pointer moves past the next n bytes of the chunk.
    method TakeFront(n: nat)
      requires Valid() && 0 < n <= endFree - startFree && n % ALIGN == 0
      modifies this`startFree, this`blocks
      ensures Valid() && startFree == old(startFree) + n
      ensures old(startFree) in blocks && blocks[old(startFree)] == Block(n, Lost)
      ensures Unharmed(old(blocks), blocks, mem, mem) && LiveApart(old(blocks), old(startFree), n)
      ensures LostBlocks(blocks) == old(LostBlocks(blocks)) + {old(startFree)}
      ensures old(startFree) !in old(LostBlocks(blocks)) && Bytes(blocks) == old(Bytes(blocks))
    {
      hide Apart, Sized, OnLists, Bytes, LostBlocks, Chain, SameLive, LiveApart;
      ChunkCut(blocks, lists, startFree, endFree, n);
      CutBelow(blocks, startFree, n, Lost, systemBreak);
      UnharmedSelf(blocks, mem);
      blocks := Cut(blocks, startFree, n, Lost);
      startFree := startFree + n;
    }

    method ChunkAlloc(size: nat, nobjs: nat) returns (result: int, given: nat)
      requires Valid() && ALIGN <= size <= MAX_BYTES && size % ALIGN == 0 && nobjs >= 1
      modifies this, freeList
      ensures Valid() && freeList == old(freeList)
      ensures given == Yield(old(endFree - startFree), size, nobjs)
      ensures result in blocks && blocks[result] == Block(Stride(size, given), Lost)
      ensures Unharmed(old(blocks), blocks, mem, old(mem))
      ensures LostBlocks(blocks) == old(LostBlocks(blocks)) + {result} && result !in old(LostBlocks(blocks))
      ensures LiveApart(old(blocks), result, Stride(size, given))
      ensures lists == Restocked(old(lists), old(startFree), old(endFree - startFree), size)
      ensures Bytes(blocks) >= old(Bytes(blocks))
      ensures old(endFree - startFree) > size ==> result == old(startFree) && Bytes(blocks) == old(Bytes(blocks))
      ensures Stock() == Served(old(Stock()), size, nobjs)
      decreases if endFree - startFree > Stride(size, nobjs) then 0 else 1
    {
      hide Apart, Sized, OnLists, Bytes, LostBlocks, Chain, Unharmed, Below, RightSize, LiveApart, Clear, Stride;
      var total := Stride(size, nobjs);
      var left := endFree - startFree;
      StrideAligned(size, nobjs);
      if left > total {
        result, given := startFree, nobjs;
        TakeFront(total);
      } else if left > size {
        given := left / size;
        Share(left, size);
        StrideAligned(size, given);
        total := Stride(size, given);
        result := startFree;
        TakeFront(total);
      } else {
        Fetch(total, heapSize / 16);
        Replenish(Fetched(total, heapSize));
        ghost var m, was := blocks, mem;
        result, given := ChunkAlloc(size, nobjs);
        UnharmedThen(old(blocks), m, blocks, old(mem), was, mem);
        LiveApartBefore(old(blocks), m, was, old(mem), result, Stride(size, given));
      }
    }

    // All chains but one.
    ghost predicate ChainsBut(i: nat)
      reads this, freeList
    {
      && freeList.Length == FREE_LISTS && |lists| == FREE_LISTS
      && forall j :: 0 <= j < FREE_LISTS && j != i ==> Chain(mem, freeList[j], lists[j])
    }

    ghost predicate Midway(i: nat)
      reads this, freeList
    {
      Ledger(blocks, lists, startFree, endFree) && ChainsBut(i) && Break() && heapSize % ALIGN == 0
    }

    // One piece of a fresh run gets its link and goes onto list i.
    method LinkPiece(current: int, link: int, n: nat, i: nat)
      requires Midway(i)
      requires current in blocks && blocks[current].use == Lost && n <= blocks[current].size
      requires n == ALIGN * (i + 1) <= MAX_BYTES
      modifies this`mem, this`blocks, this`lists
      ensures Midway(i)
      ensures blocks == Cut(old(blocks), current, n, Free(i))
      ensures lists == old(lists)[i := old(lists)[i] + [current]]
      ensures mem == Linked(old(mem), current, link)
      ensures Unharmed(old(blocks), blocks, mem, old(mem)) && Bytes(blocks) == old(Bytes(blocks))
      ensures LostBlocks(blocks) == old(LostBlocks(blocks)) - {current}
                + (if n < old(blocks)[current].size then {current + n} else {})
      ensures n < old(blocks)[current].size ==> current + n !in old(LostBlocks(blocks))
    {
      hide Apart, Sized, OnLists, Bytes, LostBlocks, Chain, SameLive, LiveSame, Holds;
      ghost var was := mem;
      mem := Linked(mem, current, link);
      forall j | 0 <= j < FREE_LISTS && j != i ensures Chain(mem, freeList[j], lists[j]) {
        ChainApart(blocks, lists, mem, was, freeList[j], j, current);
      }
      LiveSameApart(blocks, mem, was, current);
      PieceListed(blocks, lists, startFree, endFree, current, n, i);
      CutBelow(blocks, current, n, Free(i), systemBreak);
      blocks := Cut(blocks, current, n, Free(i));
      lists := lists[i := lists[i] + [current]];
    }

    // The run is cut after its first piece; the list it is for is empty now.
    ghost method Prepare(chunk: int, n: nat, nobjs: nat, i: nat)
      requires Valid() && n == ALIGN * (i + 1) <= MAX_BYTES && nobjs > 1
      requires chunk in blocks && blocks[chunk] == Block(Stride(n, nobjs), Lost)
      modifies this`blocks, this`lists
      ensures Midway(i) && lists == old(lists)[i := []]
      ensures chunk in blocks && blocks[chunk] == Block(n, Lost)
      ensures chunk + n in blocks && blocks[chunk + n] == Block(Stride(n, nobjs - 1), Lost)
      ensures Unharmed(old(blocks), blocks, mem, mem) && Bytes(blocks) == old(Bytes(blocks))
      ensures LostBlocks(blocks) == old(LostBlocks(blocks)) + Elements(old(lists)[i]) + {chunk + n}
      ensures chunk + n !in old(LostBlocks(blocks)) + Elements(old(lists)[i])
    {
      hide Apart, Sized, ChunkIs, OnLists, Bytes, LostBlocks, Chain, Unharmed, Holds, Below, Elements, Stride,
           RightSize;
      StrideMore(n, nobjs - 1);
      StrideAligned(n, nobjs - 1);
      ListDropped(blocks, lists, startFree, endFree, i);
      ListDroppedHarmless(blocks, lists, i, mem, systemBreak);
      ghost var m := Dropped(blocks, lists[i]);
      lists := lists[i := []];
      PieceKept(m, lists, startFree, endFree, chunk, n);
      CutBelow(m, chunk, n, Lost, systemBreak);
      CutHarmless(m, chunk, n, Lost, mem);
      UnharmedThen(old(blocks), m, Cut(m, chunk, n, Lost), mem, mem, mem);
      blocks := Cut(m, chunk, n, Lost);
    }

    // The state of the threading loop before the k-th piece is linked, against
    // the blocks, bytes and lists it began with.
    ghost predicate Threading(chunk: int, n: nat, nobjs: nat, i: nat, k: nat, current: int,
                              m: Blocks, was: Memory, before: seq<seq<int>>, lost: set<int>)
      reads this, freeList
    {
      && Midway(i) && i < FREE_LISTS && freeList[i] == chunk + n && chunk > 0
      && 1 <= k < nobjs && n == ALIGN * (i + 1) <= MAX_BYTES && i < |before|
      && current == chunk + n + Stride(n, k - 1)
      && lists == before[i := Pieces(chunk + n, n, k - 1)]
      && Threaded(mem, chunk + n, n, k - 1)
      && chunk in blocks && blocks[chunk] == Block(n, Lost)
      && current in blocks && blocks[current] == Block(Stride(n, nobjs - k), Lost)
      && LostBlocks(blocks) == lost + {current} && current !in lost
      && Bytes(blocks) == Bytes(m) && Unharmed(m, blocks, mem, was)
    }

    // current_obj->freeListLink = next_obj
    method LinkOn(chunk: int, n: nat, nobjs: nat, i: nat, k: nat, current: int,
                  ghost m: Blocks, ghost was: Memory, ghost before: seq<seq<int>>, ghost lost: set<int>)
      requires Threading(chunk, n, nobjs, i, k, current, m, was, before, lost) && k < nobjs - 1
      modifies this`mem, this`blocks, this`lists
      ensures Threading(chunk, n, nobjs, i, k + 1, current + n, m, was, before, lost)
    {
      hide Bytes, LostBlocks, Chain, Unharmed, Threaded, Pieces, Midway, Stride, Linked, Holds, Cut;
      ghost var prior, cells := blocks, mem;
      StrideMore(n, nobjs - k - 1);
      StrideAligned(n, nobjs - k - 1);
      PiecesMore(chunk + n, n, k - 1);
      StrideSteps(n, 0, k);
      CutAt(prior, current, n, Free(i), chunk);
      LinkPiece(current, current + n, n, i);
      ThreadedMore(cells, chunk + n, n, k - 1, current);
      UnharmedThen(m, prior, blocks, was, cells, mem);
    }

    // current_obj->freeListLink = 0
    method LinkLast(chunk: int, n: nat, nobjs: nat, i: nat, k: nat, current: int,
                    ghost m: Blocks, ghost was: Memory, ghost before: seq<seq<int>>, ghost lost: set<int>)
      requires Threading(chunk, n, nobjs, i, k, current, m, was, before, lost) && k == nobjs - 1
      modifies this`mem, this`blocks, this`lists
      ensures Valid()
      ensures lists == before[i := Pieces(chunk + n, n, nobjs - 1)]
      ensures chunk in blocks && blocks[chunk] == Block(n, Lost)
      ensures LostBlocks(blocks) == lost
      ensures Bytes(blocks) == Bytes(m) && Unharmed(m, blocks, mem, was)
    {
      hide Bytes, LostBlocks, Chain, Unharmed, Threaded, Pieces, Ledger, Break, Stride, Linked;
      ghost var prior, cells := blocks, mem;
      StrideMore(n, 0);
      PiecesMore(chunk + n, n, k - 1);
      LinkPiece(current, 0, n, i);
      ThreadedEnd(cells, chunk + n, n, k - 1, current);
      UnharmedThen(m, prior, blocks, was, cells, mem);
    }

    // *my_free_list = next_obj
    method Unlist(chunk: int, n: nat, nobjs: nat, i: nat, ghost lost: set<int>)
      requires Valid() && n == ALIGN * (i + 1) <= MAX_BYTES && nobjs > 1
      requires chunk in blocks && blocks[chunk] == Block(Stride(n, nobjs), Lost)
      requires lost == LostBlocks(blocks) + Elements(lists[i])
      modifies this`blocks, this`lists, freeList
      ensures Threading(chunk, n, nobjs, i, 1, chunk + n, old(blocks), old(mem), old(lists), lost)
    {
      hide Bytes, LostBlocks, Chain, Unharmed, Holds, Threaded, Pieces, Break, Stride, Elements, Sized, OnLists;
      Prepare(chunk, n, nobjs, i);
      freeList[i] := chunk + n;
      NoPieces(mem, chunk + n, n);
    }

    // The pieces of a fresh run after the first become the free list of their
    // size; what that list held before is forgotten.
    method Thread(chunk: int, n: nat, nobjs: nat)
      requires Valid() && ALIGN <= n <= MAX_BYTES && n % ALIGN == 0 && nobjs > 1
      requires chunk in blocks && blocks[chunk] == Block(Stride(n, nobjs), Lost)
      modifies this`mem, this`blocks, this`lists, freeList
      ensures Valid()
      ensures chunk in blocks && blocks[chunk] == Block(n, Lost)
      ensures Unharmed(old(blocks), blocks, mem, old(mem)) && Bytes(blocks) == old(Bytes(blocks))
      ensures LostBlocks(blocks) == old(LostBlocks(blocks)) + Elements(old(lists)[FreeListIndex(n)])
      ensures lists == old(lists)[FreeListIndex(n) := Pieces(chunk + n, n, nobjs - 1)]
    {
      hide Threading, Bytes, LostBlocks, Unharmed, Pieces, Stride, Elements;
      var i := FreeListIndex(n);
      var next := chunk + n;
      ghost var lost := old(LostBlocks(blocks)) + Elements(old(lists)[i]);
      Unlist(chunk, n, nobjs, i, lost);
      var k := 1;
      while true
        invariant 1 <= k < nobjs
        invariant Threading(chunk, n, nobjs, i, k, next, old(blocks), old(mem), old(lists), lost)
        decreases nobjs - k
      {
        var current := next;
        next := next + n;
        if nobjs - 1 == k {
          LinkLast(chunk, n, nobjs, i, k, current, old(blocks), old(mem), old(lists), lost);
          break;
        } else {
          LinkOn(chunk, n, nobjs, i, k, current, old(blocks), old(mem), old(lists), lost);
        }
        k := k + 1;
      }
    }

    // A run of blocks of one size: the first for the caller, the others for the
    // list. A leftover of exactly this size goes onto the list and is lost when
    // the list is replaced.
    method Refill(n: nat) returns (result: int)
      requires Valid() && ALIGN <= n <= MAX_BYTES && n % ALIGN == 0
      requires lists[FreeListIndex(n)] == []
      modifies this, freeList
      ensures Valid() && freeList == old(freeList)
      ensures result in blocks && blocks[result] == Block(n, Lost)
      ensures Unharmed(old(blocks), blocks, mem, old(mem)) && LiveApart(old(blocks), result, n)
      ensures result !in old(LostBlocks(blocks)) && (old(endFree - startFree) == n ==> result != old(startFree))
      ensures LostBlocks(blocks) == old(LostBlocks(blocks)) + {result}
                + (if old(endFree - startFree) == n then {old(startFree)} else {})
      ensures lists == Refilled(old(lists), old(startFree), old(endFree - startFree), n, result)
      ensures Bytes(blocks) >= old(Bytes(blocks))
      ensures Stock() == Served(old(Stock()), n, OBJECTS_PER_REFILL)
    {
      hide Chain, Unharmed, Holds, Below, LiveApart, Bytes, LostBlocks, Stride, Yield, Restocked, Elements,
           Sized, OnLists, Apart, FreeListIndex, RoundUp, Refilled, Served;
      ghost var start, left, before, lost := startFree, endFree - startFree, lists, LostBlocks(blocks);
      assert left % ALIGN == 0 by { ChunkAligned(blocks, lists, startFree, endFree); }
      var i := FreeListIndex(n);
      var nobjs;
      result, nobjs := ChunkAlloc(n, OBJECTS_PER_REFILL);
      ghost var m, was, midway := blocks, mem, lists;
      assert midway == Restocked(before, start, left, n);
      SizeClass(n);
      if nobjs == 1 {
        StrideMore(n, 0);
        OneOnly(before, start, left, n, result);
        return;
      }
      assert result !in Elements(midway[i]) by { NotListed(blocks, lists, result, i); }
      assert Elements(midway[i]) == if left == n then {start} else {} by { RestockedAt(before, start, left, n); }
      Thread(result, n, nobjs);
      RefilledFrom(before, start, left, n, result, nobjs, lists);
      assert LostBlocks(blocks) == lost + {result} + (if left == n then {start} else {});
      UnharmedThen(old(blocks), m, blocks, old(mem), was, mem);
      StrideSteps(n, 0, nobjs);
      StrideMore(n, 0);
      LiveApartLess(old(blocks), result, n, Stride(n, nobjs));
    }

    ghost method HandOut(p: int, n: nat)
      requires Valid() && n >= 1 && p in blocks && blocks[p] == Block(Footprint(n), Lost)
      modifies this`blocks
      ensures Valid()
      ensures LiveBlocks(blocks) == old(LiveBlocks(blocks))[p := n] && p !in old(LiveBlocks(blocks))
      ensures p in blocks && blocks[p] == Block(Footprint(n), Live(n))
      ensures LostBlocks(blocks) == old(LostBlocks(blocks)) - {p}
      ensures Bytes(blocks) == old(Bytes(blocks))
    {
      hide Chain, Apart, Sized, OnLists, Bytes, LiveBlocks, LostBlocks;
      HandedOut(blocks, lists, startFree, endFree, p, n);
      blocks := Marked(blocks, p, Live(n));
    }

    method FromSystem(n: nat) returns (p: int)
      requires Valid() && n > MAX_BYTES
      modifies this`systemBreak, this`blocks
      ensures Valid()
      ensures LiveBlocks(blocks) == old(LiveBlocks(blocks))[p := n] && p !in old(LiveBlocks(blocks))
      ensures p in blocks && blocks[p] == Block(n, Live(n))
      ensures Clear(old(blocks), p, n)
      ensures LostBlocks(blocks) == old(LostBlocks(blocks))
      ensures Bytes(blocks) == old(Bytes(blocks)) + Span(p, n)
    {
      hide Chain, Apart, Sized, OnLists, ChunkIs, Bytes, Clear, LiveBlocks, LostBlocks, Below, Marked;
      ghost var m := blocks;
      p := SystemMalloc(n);
      Obtained(m, lists, startFree, endFree, p, n);
      AddedMarked(m, p, n, Live(n));
      AddedBelow(m, p, n, Live(n), systemBreak);
      blocks := Marked(blocks, p, Live(n));
    }

    // The first block of a list that has one.
    method PopHead(n: nat, i: nat) returns (p: int)
      requires Valid() && 1 <= n <= MAX_BYTES && i == FreeListIndex(n) && i < FREE_LISTS && freeList[i] != 0
      modifies this`blocks, this`lists, freeList
      ensures Valid()
      ensures old(lists)[i] != [] && p == old(lists)[i][0]
      ensures lists == old(lists)[i := old(lists)[i][1..]]
      ensures LiveBlocks(blocks) == old(LiveBlocks(blocks))[p := n] && p !in old(LiveBlocks(blocks))
      ensures p in blocks && blocks[p] == Block(Footprint(n), Live(n))
      ensures LiveApart(old(blocks), p, Footprint(n))
      ensures LostBlocks(blocks) == old(LostBlocks(blocks)) && Bytes(blocks) == old(Bytes(blocks))
    {
      hide Holds, Apart, Sized, OnLists, Bytes, LiveBlocks, LostBlocks, LiveApart, FreeListIndex, Footprint;
      assert lists[i] != [] by { NullHead(mem, freeList[i], lists[i]); }
      ChainTail(mem, freeList[i], lists[i]);
      p := freeList[i];
      HeadHandedOut(blocks, lists, startFree, endFree, i, n);
      ApartFromLive(blocks, p);
      freeList[i] := LinkAt(mem, p);
      blocks := Marked(blocks, p, Live(n));
      lists := lists[i := lists[i][1..]];
    }

    // The next block to hand out: the first of its list, or else one fresh from
    // the chunk or the system.
    method Allocate(n: nat) returns (p: int)
      requires Valid() && n >= 1
      modifies this, freeList
      ensures Valid() && freeList == old(freeList)
      ensures LiveBlocks(blocks) == old(LiveBlocks(blocks))[p := n] && p !in old(LiveBlocks(blocks))
      ensures p in blocks && blocks[p] == Block(Footprint(n), Live(n))
      ensures LiveApart(old(blocks), p, Footprint(n)) && LiveSame(old(blocks), mem, old(mem))
      ensures LostBlocks(blocks) == old(LostBlocks(blocks))
                + (if Strands(old(lists), old(endFree - startFree), n) then {old(startFree)} else {})
      ensures Bytes(blocks) >= old(Bytes(blocks))
      ensures n > MAX_BYTES ==> lists == old(lists)
      ensures n <= MAX_BYTES && old(lists)[FreeListIndex(n)] != [] ==>
                && p == old(lists)[FreeListIndex(n)][0]
                && lists == old(lists)[FreeListIndex(n) := old(lists)[FreeListIndex(n)][1..]]
      ensures n <= MAX_BYTES && old(lists)[FreeListIndex(n)] == [] ==>
                lists == Refilled(old(lists), old(startFree), old(endFree - startFree), RoundUp(n), p)
      ensures Stock() == Drawn(old(Stock()), old(lists), n)
    {
      hide Chain, Holds, Pieces, Yield, Restocked, Elements, OnLists, Refilled, Sized, Apart, Bytes, LiveBlocks,
           LostBlocks, Served;
      SizeClass(n);
      if n > MAX_BYTES {
        p := FromSystem(n);
      } else {
        var i := FreeListIndex(n);
        var head := freeList[i];
        if head == 0 {
          assert lists[i] == [] by { NullHead(mem, freeList[i], lists[i]); }
          p := Refill(RoundUp(n));
          UnharmedLive(old(blocks), blocks, mem, old(mem));
          HandOut(p, n);
        } else {
          p := PopHead(n, i);
        }
      }
    }

    // A block comes back: to the system, or to the front of its list.
    method Deallocate(p: int, n: nat)
      requires Valid() && p in LiveBlocks(blocks) && LiveBlocks(blocks)[p] == n
      modifies this`blocks, this`lists, this`mem, freeList
      ensures Valid()
      ensures LiveBlocks(blocks) == old(LiveBlocks(blocks)) - {p}
      ensures LiveSame(blocks, mem, old(mem))
      ensures LostBlocks(blocks) == old(LostBlocks(blocks))
      ensures Bytes(blocks) == old(Bytes(blocks)) - (if n > MAX_BYTES then Span(p, n) else iset{})
      ensures n >= 1
      ensures lists == if n > MAX_BYTES then old(lists)
                       else var i := FreeListIndex(n); old(lists)[i := [p] + old(lists)[i]]
    {
      hide Chain, Holds, Apart, Sized, OnLists, Bytes, LiveBlocks, LostBlocks, LiveSame;
      LiveAt(blocks, p);
      if n > MAX_BYTES {
        Returned(blocks, lists, startFree, endFree, p);
        blocks := blocks - {p};
        LiveSameSelf(blocks, mem);
      } else {
        ghost var m, was := blocks, mem;
        GivenBack(blocks, lists, startFree, endFree, p, n);
        var i := FreeListIndex(n);
        ListAside(blocks, lists, i, p);
        mem := Linked(mem, p, freeList[i]);
        forall j | 0 <= j < FREE_LISTS ensures Chain(mem, freeList[j], lists[j]) {
          ChainApart(blocks, lists, mem, was, freeList[j], j, p);
        }
        ChainPush(was, freeList[i], lists[i], p);
        freeList[i] := p;
        blocks := Marked(blocks, p, Free(i));
        lists := lists[i := [p] + lists[i]];
        LiveSameApart(blocks, mem, was, p);
      }
    }

    // The holder of a block writes into it.
    method Store(p: int, k: nat, c: Cell)
      requires Valid() && p in LiveBlocks(blocks) && k < LiveBlocks(blocks)[p]
      modifies this`mem
      ensures Valid()
      ensures mem(p + k) == c && forall x :: x != p + k ==> mem(x) == old(mem)(x)
    {
      hide Chain, Holds, Apart, Sized, OnLists, Bytes, LostBlocks;
      LiveAt(blocks, p);
      ghost var was := mem;
      var here, cells := p + k, mem;
      mem := x => if x == here then c else cells(x);
      forall j | 0 <= j < FREE_LISTS ensures Chain(mem, freeList[j], lists[j]) {
        ChainApart(blocks, lists, mem, was, freeList[j], j, p);
      }
    }

    // memcpy into a block held by its caller.
    method Copy(to: int, from: int, n: nat)
      requires Valid() && to in LiveBlocks(blocks) && n <= LiveBlocks(blocks)[to]
      modifies this`mem
      ensures Valid()
      ensures mem == Copied(old(mem), to, from, n)
      ensures LiveSame(blocks - {to}, mem, old(mem))
    {
      hide Chain, Holds, Apart, Sized, OnLists, Bytes, LostBlocks;
      LiveAt(blocks, to);
      ghost var was := mem;
      mem := Copied(mem, to, from, n);
      forall j | 0 <= j < FREE_LISTS ensures Chain(mem, freeList[j], lists[j]) {
        ChainApart(blocks, lists, mem, was, freeList[j], j, to);
      }
      OthersSame(blocks, mem, was, to);
    }

    // A new block, the content copied into it, the old block given back.
    method Move(p: int, oldSize: nat, newSize: nat) returns (r: int)
      requires Valid() && p in LiveBlocks(blocks) && LiveBlocks(blocks)[p] == oldSize && newSize >= 1
      modifies this, freeList
      ensures Valid() && freeList == old(freeList)
      ensures Resized(old(blocks), blocks, mem, old(mem), p, r, newSize)
      ensures LostBlocks(blocks) == old(LostBlocks(blocks))
                + (if Strands(old(lists), old(endFree - startFree), newSize) then {old(startFree)} else {})
      ensures Bytes(blocks) >= old(Bytes(blocks)) - (if oldSize > MAX_BYTES then Span(p, oldSize) else iset{})
      ensures Stock() == Drawn(old(Stock()), old(lists), newSize)
      ensures oldSize > MAX_BYTES && newSize > MAX_BYTES ==> lists == old(lists)
    {
      hide Chain, Holds, Bytes, LostBlocks, Chains, Break, LiveBlocks, Copied, LiveSame, Strands, Refilled,
           RoundUp, Footprint, FreeListIndex, Apart, Sized, OnLists, ChunkIs, Resized, Drawn, Span;
      r := Allocate(newSize);
      ghost var m, first := blocks, mem;
      Copy(r, p, if newSize > oldSize then oldSize else newSize);
      ghost var second := mem;
      Deallocate(p, oldSize);
      Moved(old(blocks), m, blocks, old(mem), first, second, mem, p, r, newSize);
    }

    // Only the length a block counts for changes.
    ghost method Relabel(p: int, n: nat)
      requires Valid() && p in LiveBlocks(blocks) && n >= 1
      requires LiveBlocks(blocks)[p] <= MAX_BYTES && RoundUp(LiveBlocks(blocks)[p]) == RoundUp(n)
      modifies this`blocks
      ensures Valid()
      ensures Resized(old(blocks), blocks, mem, mem, p, p, n)
      ensures LostBlocks(blocks) == old(LostBlocks(blocks)) && Bytes(blocks) == old(Bytes(blocks))
    {
      hide Chain, Bytes, LostBlocks, LiveBlocks, Apart, Sized, OnLists, ChunkIs, Resized, RoundUp, Footprint, Below;
      LiveAt(blocks, p);
      SameClass(LiveBlocks(blocks)[p], n);
      Relabelled(blocks, lists, startFree, endFree, p, n);
      RelabelledBelow(blocks, p, Live(n), systemBreak);
      Restated(blocks, Marked(blocks, p, Live(n)), mem, p, n);
      blocks := Marked(blocks, p, Live(n));
    }

    // The system's realloc: a block of the new length that keeps the bytes it
    // has room for, at the old place or at another.
    method SystemRealloc(p: int, oldSize: nat, newSize: nat) returns (r: int)
      requires Valid() && p in LiveBlocks(blocks) && LiveBlocks(blocks)[p] == oldSize
      requires oldSize > MAX_BYTES && newSize > MAX_BYTES
      modifies this, freeList
      ensures Valid() && freeList == old(freeList)
      ensures Resized(old(blocks), blocks, mem, old(mem), p, r, newSize)
      ensures LostBlocks(blocks) == old(LostBlocks(blocks)) && lists == old(lists) && Stock() == old(Stock())
      ensures Bytes(blocks) >= old(Bytes(blocks)) - Span(p, oldSize)
    {
      hide Resized, LostBlocks, LiveBlocks, Bytes, Span;
      r := Move(p, oldSize, newSize);
    }

    // A block of another length with the same content. The holder of the old
    // block keeps it only if its size class does not change.
    method Reallocate(p: int, oldSize: nat, newSize: nat) returns (r: int)
      requires Valid() && p in LiveBlocks(blocks) && LiveBlocks(blocks)[p] == oldSize && newSize >= 1
      modifies this, freeList
      ensures Valid() && freeList == old(freeList)
      ensures Resized(old(blocks), blocks, mem, old(mem), p, r, newSize)
      ensures RoundUp(oldSize) == RoundUp(newSize) && oldSize <= MAX_BYTES ==>
                r == p && mem == old(mem) && lists == old(lists)
      ensures var moved := oldSize > MAX_BYTES || RoundUp(oldSize) != RoundUp(newSize);
              && LostBlocks(blocks) == old(LostBlocks(blocks))
                 + (if moved && Strands(old(lists), old(endFree - startFree), newSize) then {old(startFree)} else {})
              && Stock() == if moved then Drawn(old(Stock()), old(lists), newSize) else old(Stock())
      ensures Bytes(blocks) >= old(Bytes(blocks)) - (if oldSize > MAX_BYTES then Span(p, oldSize) else iset{})
    {
      hide Chain, Holds, Bytes, LostBlocks, Apart, Sized, OnLists, Resized, LiveBlocks, Span;
      if oldSize > MAX_BYTES && newSize > MAX_BYTES {
        r := SystemRealloc(p, oldSize, newSize);
        return;
      }
      if RoundUp(oldSize) == RoundUp(newSize) {
        Relabel(p, newSize);
        return p;
      }
      r := Move(p, oldSize, newSize);
    }
  }

  // One object of eight bytes leaves eighty of the first chunk, and a request
  // for eighty then strands them.
  method StrandsLeftover() returns (heap: TrHeap, p: int, q: int)
    ensures heap.Valid() && fresh(heap) && LiveBlocks(heap.blocks) == map[p := 8, q := 80]
    ensures exists b :: LostBlocks(heap.blocks) == {b}
  {
    hide Chain, Bytes, Ledger, Pieces, LiveBlocks, LostBlocks, LiveApart, LiveSame, TrHeap.Valid;
    heap := new TrHeap();
    NoBlocks();
    p := heap.Allocate(8);
    assert heap.Stock() == Supply(80, 160) && heap.lists[FreeListIndex(80)] == [];
    q := heap.Allocate(80);
  }

  lemma NoBlocks()
    ensures LiveBlocks(map[]) == map[] && LostBlocks(map[]) == {}
  {
  }
}
