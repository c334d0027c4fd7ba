// The arena of libpool/src/pool.c: a chain of blocks cut from front to back,
// a list of large objects and a list of cleanups.
module Pools {
  import opened PoolLayout

  // A large object's record, and where its memory is; 0 once it is freed.
  datatype Large = Large(at: int, alloc: int)

  // A registered cleanup; a handler of 0 is none.
  datatype Cleanup = Cleanup(at: int, handler: int, data: int)

  datatype Call = Call(handler: int, data: int)

  function Allocs(large: seq<Large>): (s: seq<int>) {
    if large == [] then []
    else (if large[0].alloc != 0 then [large[0].alloc] else []) + Allocs(large[1..])
  }

  // The calls a walk over the cleanup list makes.
  function Calls(cleanup: seq<Cleanup>): seq<Call> {
    if cleanup == [] then []
    else (if cleanup[0].handler != 0 then [Call(cleanup[0].handler, cleanup[0].data)] else [])
         + Calls(cleanup[1..])
  }

  // The calls that a history of registrations is owed: the last first.
  function Owed(registered: seq<Call>): seq<Call> {
    if registered == [] then []
    else
      var c := registered[|registered| - 1];
      (if c.handler != 0 then [c] else []) + Owed(registered[..|registered| - 1])
  }

  // With no null handler among them, the k-th call from the last registered on.
  lemma {:induction false} OwedReversed(registered: seq<Call>)
    requires forall c :: c in registered ==> c.handler != 0
    ensures |Owed(registered)| == |registered|
    ensures forall k :: 0 <= k < |registered| ==> Owed(registered)[k] == registered[|registered| - 1 - k]
  {
    if registered != [] {
      OwedReversed(registered[..|registered| - 1]);
    }
  }

  function Bases(blocks: seq<Block>): (s: seq<int>)
    ensures |s| == |blocks| && forall i :: 0 <= i < |s| ==> s[i] == blocks[i].base
  {
    seq(|blocks|, i requires 0 <= i < |blocks| => blocks[i].base)
  }

  ghost predicate LargeOk(heap: Heap, blocks: seq<Block>, large: seq<Large>, live: set<Region>) {
    && (forall k :: 0 <= k < |large| && large[k].alloc != 0 ==>
          && Owned(heap, blocks, large[k].alloc)
          && Region(large[k].alloc, heap[large[k].alloc], Own) in live)
    && (forall j, k :: 0 <= j < k < |large| && large[j].alloc != 0 ==> large[j].alloc != large[k].alloc)
  }

  // Everything obtained and not yet freed is a block or a large object,
  // or is about to be recorded as one.
  ghost predicate Accounted(heap: Heap, blocks: seq<Block>, large: seq<Large>, pending: set<int>) {
    forall b :: b in heap ==> Held(blocks, large, b) || b in pending
  }

  ghost predicate Held(blocks: seq<Block>, large: seq<Large>, b: int) {
    || (exists i :: 0 <= i < |blocks| && blocks[i].base == b)
    || (exists k :: 0 <= k < |large| && large[k].alloc == b)
  }

  lemma LargeKept(heap: Heap, blocks: seq<Block>, large: seq<Large>, live: set<Region>, pending: set<int>,
                  b: int, n: nat, k: Block, more: Region)
    requires LargeOk(heap, blocks, large, live) && Accounted(heap, blocks, large, pending) && b !in heap && k.base == b
    ensures LargeOk(heap[b := n], blocks + [k], large, live + {more})
    ensures Accounted(heap[b := n], blocks + [k], large, pending)
  {
    var now := blocks + [k];
    assert forall i :: 0 <= i < |blocks| ==> now[i] == blocks[i];
    forall c | c in heap[b := n] ensures Held(now, large, c) || c in pending {
      if c == b {
        assert now[|blocks|].base == c;
      } else if i :| 0 <= i < |blocks| && blocks[i].base == c {
        assert now[i].base == c;
      }
    }
  }

  // Moving a mark and logging a region leaves the large objects as they are.
  lemma LargeStays(heap: Heap, blocks: seq<Block>, large: seq<Large>, live: set<Region>, pending: set<int>,
                   i: nat, m: int, n: nat, more: Region)
    requires LargeOk(heap, blocks, large, live) && Accounted(heap, blocks, large, pending) && i < |blocks|
    ensures LargeOk(heap, Bumped(blocks, i, m, n), large, live + {more})
    ensures Accounted(heap, Bumped(blocks, i, m, n), large, pending)
  {
    var now := Bumped(blocks, i, m, n);
    forall c | c in heap ensures Held(now, large, c) || c in pending {
      if j :| 0 <= j < |blocks| && blocks[j].base == c {
        assert now[j].base == c;
      }
    }
  }

  lemma LargePending(heap: Heap, blocks: seq<Block>, size: nat, large: seq<Large>, live: set<Region>, p: int, n: nat)
    requires HeapApart(heap) && Clear(heap, p, n) && n > 0
    requires BlocksOk(heap, blocks, size) && LiveOk(heap, blocks, live)
    requires LargeOk(heap, blocks, large, live) && Accounted(heap, blocks, large, {})
    ensures BlocksOk(heap[p := n], blocks, size) && LiveOk(heap[p := n], blocks, live + {Region(p, n, Own)})
    ensures LargeOk(heap[p := n], blocks, large, live + {Region(p, n, Own)})
    ensures Accounted(heap[p := n], blocks, large, {p})
    ensures Unrecorded(large, p)
  {
    LargeAdded(heap, blocks, size, live, p, n);
  }

  ghost predicate Unrecorded(large: seq<Large>, p: int) {
    forall k :: 0 <= k < |large| ==> large[k].alloc != p
  }

  lemma LargeEntered(heap: Heap, blocks: seq<Block>, large: seq<Large>, live: set<Region>, p: int, n: nat, at: int)
    requires LargeOk(heap, blocks, large, live) && Accounted(heap, blocks, large, {p})
    requires Owned(heap, blocks, p) && Region(p, n, Own) in live && heap[p] == n && Unrecorded(large, p)
    ensures LargeOk(heap, blocks, [Large(at, p)] + large, live)
    ensures Accounted(heap, blocks, [Large(at, p)] + large, {})
  {
    hide Owned;
    var now := [Large(at, p)] + large;
    assert forall k :: 1 <= k < |now| ==> now[k] == large[k - 1];
    forall b | b in heap ensures Held(blocks, now, b) {
      if b == p {
        assert now[0].alloc == b;
      } else if !exists i :: 0 <= i < |blocks| && blocks[i].base == b {
        var k :| 0 <= k < |large| && large[k].alloc == b;
        assert now[k + 1].alloc == b;
      }
    }
  }

  lemma TwoRegions(live: set<Region>, own: Region, at: int, n: nat)
    ensures forall i :: live + {own} + {Region(at, n, In(i))} == live + {own, Region(at, n, In(i))}
  {
  }

  lemma OwnOwned(heap: Heap, blocks: seq<Block>, live: set<Region>, r: Region)
    requires LiveOk(heap, blocks, live) && r in live && r.home.Own?
    ensures Owned(heap, blocks, r.base) && heap[r.base] == r.size
  {
  }

  ghost function Without(heap: Heap, s: seq<int>): Heap {
    map b | b in heap && b !in s :: heap[b]
  }

  lemma WithoutNone(heap: Heap)
    ensures Without(heap, []) == heap
  {
  }

  lemma AllocsFirst(large: seq<Large>, l: nat)
    requires l < |large|
    ensures Allocs(large[l..])
            == (if large[l].alloc != 0 then [large[l].alloc] else []) + Allocs(large[l + 1..])
    ensures large[l].alloc == 0 ==> Allocs(large[l..]) == Allocs(large[l + 1..])
  {
    assert large[l..][1..] == large[l + 1..];
  }

  lemma NoAllocs(large: seq<Large>)
    ensures Allocs(large[|large|..]) == [] && large[0..] == large
  {
  }

  lemma Regrouped(s: seq<int>, b: int, t: seq<int>)
    ensures s + ([b] + t) == s + [b] + t
  {
  }

  lemma WithoutMore(heap: Heap, b: int, s: seq<int>)
    ensures Without(heap, [b] + s) == Without(heap - {b}, s)
  {
  }

  ghost predicate BlocksIn(heap: Heap, blocks: seq<Block>) {
    && (forall i :: 0 <= i < |blocks| ==> blocks[i].base in heap)
    && (forall i, j :: 0 <= i < j < |blocks| ==> blocks[i].base != blocks[j].base)
  }

  lemma {:induction false} AllocsAre(large: seq<Large>)
    ensures forall b :: b in Allocs(large) <==> b != 0 && exists k :: 0 <= k < |large| && large[k].alloc == b
  {
    if large != [] {
      AllocsAre(large[1..]);
      assert forall k :: 1 <= k < |large| ==> large[k] == large[1..][k - 1];
    }
  }

  // The large objects are not blocks of the chain, which outlives them.
  lemma AllocsGone(heap: Heap, blocks: seq<Block>, size: nat, large: seq<Large>, live: set<Region>)
    requires BlocksOk(heap, blocks, size) && LargeOk(heap, blocks, large, live)
    ensures BlocksIn(Without(heap, Allocs(large)), blocks)
  {
    AllocsAre(large);
    forall i | 0 <= i < |blocks| ensures blocks[i].base in Without(heap, Allocs(large)) {
      assert BlockOk(heap, blocks[i], i, size);
    }
  }

  lemma NoneLeft(heap: Heap, blocks: seq<Block>, size: nat, large: seq<Large>, live: set<Region>)
    requires HeapApart(heap) && Accounted(heap, blocks, large, {})
    ensures Without(Without(heap, Allocs(large)), Bases(blocks)) == map[]
  {
    AllocsAre(large);
    forall b | b in Without(heap, Allocs(large)) ensures b in Bases(blocks) {
      assert Held(blocks, large, b);
      var i :| 0 <= i < |blocks| && blocks[i].base == b;
      assert Bases(blocks)[i] == b;
    }
  }

  lemma OneLeft(heap: Heap, blocks: seq<Block>, size: nat, large: seq<Large>, live: set<Region>)
    requires HeapApart(heap) && BlocksOk(heap, blocks, size) && |blocks| >= 1
    requires LargeOk(heap, blocks, large, live) && Accounted(heap, blocks, large, {})
    ensures Without(Without(heap, Allocs(large)), Bases(blocks)[1..]) == map[blocks[0].base := size]
  {
    hide Allocs, LargeOk;
    var left, rest, base := Without(heap, Allocs(large)), Bases(blocks)[1..], blocks[0].base;
    FirstStays(heap, blocks, size, large, live);
    forall b | b in left && b != base ensures b in rest {
      OthersListed(heap, blocks, large, b);
    }
    assert base !in rest by {
      assert forall i :: 0 <= i < |rest| ==> rest[i] == blocks[i + 1].base;
    }
    hide BlocksOk, Accounted, HeapApart, Bases;
    assert Without(left, rest) == map[base := size];
  }

  lemma FirstStays(heap: Heap, blocks: seq<Block>, size: nat, large: seq<Large>, live: set<Region>)
    requires BlocksOk(heap, blocks, size) && |blocks| >= 1 && LargeOk(heap, blocks, large, live)
    ensures var base := blocks[0].base;
            base in Without(heap, Allocs(large)) && Without(heap, Allocs(large))[base] == size
  {
    AllocsAre(large);
    assert BlockOk(heap, blocks[0], 0, size);
  }

  lemma OthersListed(heap: Heap, blocks: seq<Block>, large: seq<Large>, b: int)
    requires HeapApart(heap) && Accounted(heap, blocks, large, {}) && |blocks| >= 1
    requires b in Without(heap, Allocs(large)) && b != blocks[0].base
    ensures b in Bases(blocks)[1..]
  {
    AllocsAre(large);
    assert Held(blocks, large, b);
    var i :| 0 <= i < |blocks| && blocks[i].base == b;
    assert Bases(blocks)[1..][i - 1] == b;
  }

  lemma BaseAligned(heap: Heap, blocks: seq<Block>, size: nat)
    requires BlocksOk(heap, blocks, size) && |blocks| >= 1
    ensures blocks[0].base % ALIGNMENT == 0 && (HeapApart(heap) ==> blocks[0].base > 0)
  {
    assert BlockOk(heap, blocks[0], 0, size);
  }

  lemma NewOk(base: int, size: nat)
    requires base > 0 && base % ALIGNMENT == 0 && POOL_HEADER <= size
    ensures var heap, blocks := map[base := size], [Block(base, base + POOL_HEADER, base + size)];
            BlocksOk(heap, blocks, size) && LiveOk(heap, blocks, {}) && LargeOk(heap, blocks, [], {})
            && Accounted(heap, blocks, [], {}) && HeapApart(heap) && Calls([]) == Owed([])
  {
    var blocks := [Block(base, base + POOL_HEADER, base + size)];
    assert blocks[0].base == base;
  }

  lemma OneObtained(p: int, size: nat)
    ensures multiset([p]) == multiset(var none: seq<int> := []; none) + multiset(map[p := size].Keys)
  {
    assert map[p := size].Keys == {p};
  }

  lemma OwedMore(cleanup: seq<Cleanup>, registered: seq<Call>, c: Cleanup)
    requires Calls(cleanup) == Owed(registered)
    ensures Calls([c] + cleanup) == Owed(registered + [Call(c.handler, c.data)])
  {
    var r := registered + [Call(c.handler, c.data)];
    assert r[..|r| - 1] == registered;
    assert ([c] + cleanup)[1..] == cleanup;
  }

  lemma LargeFreed(heap: Heap, blocks: seq<Block>, size: nat, large: seq<Large>, live: set<Region>, k: nat)
    requires BlocksOk(heap, blocks, size) && LiveOk(heap, blocks, live)
    requires LargeOk(heap, blocks, large, live) && Accounted(heap, blocks, large, {})
    requires k < |large|
    ensures large[k].alloc == 0 ==> large[k := large[k].(alloc := 0)] == large
    ensures large[k].alloc != 0 ==>
              var p := large[k].alloc;
              && p in heap && Region(p, heap[p], Own) in live
              && BlocksOk(heap - {p}, blocks, size)
              && LiveOk(heap - {p}, blocks, live - {Region(p, heap[p], Own)})
              && LargeOk(heap - {p}, blocks, large[k := large[k].(alloc := 0)], live - {Region(p, heap[p], Own)})
              && Accounted(heap - {p}, blocks, large[k := large[k].(alloc := 0)], {})
              && forall j :: 0 <= j < |large| && j != k ==> large[j].alloc != p
  {
    var p := large[k].alloc;
    if p != 0 {
      LargeRemoved(heap, blocks, size, live, p);
      var now := large[k := large[k].(alloc := 0)];
      forall b | b in heap - {p} ensures Held(blocks, now, b) {
        assert Held(blocks, large, b);
        if j :| 0 <= j < |large| && large[j].alloc == b {
          assert now[j].alloc == b;
        }
      }
    }
  }

  class Pool {
    const size: nat
    const max: nat
    var blocks: seq<Block>
    var current: nat
    var large: seq<Large>
    var cleanup: seq<Cleanup>

    // What the system and the handlers have seen.
    var heap: Heap
    var systemBreak: int
    var freed: seq<int>
    var ran: seq<Call>
    ghost var obtained: seq<int>

    // The regions handed out, and the cleanups registered, since the pool was
    // new or last cleared.
    ghost var live: set<Region>
    ghost var registered: seq<Call>

    // A large object obtained whose record is not yet made.
    ghost var pending: set<int>

    ghost predicate System()
      reads this`heap, this`systemBreak, this`freed, this`obtained
    {
      && HeapApart(heap)
      && systemBreak > 0 && systemBreak % ALIGNMENT == 0
      && (forall b :: b in heap ==> b + heap[b] <= systemBreak)
      && multiset(obtained) == multiset(freed) + multiset(heap.Keys)
    }

    ghost predicate Shape() {
      && POOL_HEADER <= size < WRAP
      && max == MaxFrom(size)
    }

    // Between operations nothing is pending.
    ghost predicate Valid()
      reads this
    {
      Sound() && pending == {}
    }

    ghost predicate Sound()
      reads this
    {
      && Shape() && System()
      && |blocks| >= 1 && current < |blocks|
      && BlocksOk(heap, blocks, size) && LiveOk(heap, blocks, live)
      && LargeOk(heap, blocks, large, live) && Accounted(heap, blocks, large, pending)
      && Calls(cleanup) == Owed(registered)
    }

    // A request can be served: the search ends in a block that has room, or at
    // the end of the chain, and so does the one for a large object's record.
    predicate Serves(n: Size, aligned: bool)
      reads this
      requires current <= |blocks|
    {
      if n <= max then Fits(blocks, current, n, aligned) else Fits(blocks, current, LARGE_RECORD, true)
    }

    // As right after its creation.
    ghost predicate New()
      reads this
    {
      && |blocks| == 1
      && blocks[0] == Block(blocks[0].base, blocks[0].base + POOL_HEADER, blocks[0].base + size)
      && current == 0 && large == [] && cleanup == []
      && heap == map[blocks[0].base := size]
      && live == {} && registered == []
    }

    constructor (size: nat)
      requires POOL_HEADER <= size < WRAP
      ensures Valid() && New() && this.size == size
      ensures freed == [] && ran == [] && obtained == [blocks[0].base]
    {
      this.size := size;
      max := MaxFrom(size);
      hide BlocksOk, LiveOk, LargeOk, Accounted, HeapApart, Calls, Owed;
      var p := ALIGNMENT;
      NewOk(p, size);
      OneObtained(p, size);
      blocks := [Block(p, p + POOL_HEADER, p + size)];
      current, large, cleanup := 0, [], [];
      heap, systemBreak := map[p := size], AlignUp(p + size);
      freed, ran, obtained := [], [], [p];
      live, registered, pending := {}, [], {};
    }

    // The system's malloc: room beside everything obtained and not yet freed.
    method Malloc(n: nat) returns (p: int)
      requires System() && n > 0
      modifies this`heap, this`systemBreak, this`obtained
      ensures System() && HeapApart(old(heap)) && Clear(old(heap), p, n) && p % ALIGNMENT == 0
      ensures heap == old(heap)[p := n] && p !in old(heap)
      ensures obtained == old(obtained) + [p]
    {
      p := systemBreak;
      AddedApart(heap, p, n);
      heap := heap[p := n];
      systemBreak := AlignUp(p + n);
      obtained := obtained + [p];
      assert heap.Keys == old(heap).Keys + {p};
    }

    // The system's free, which may only be given what is not yet freed.
    method Free(p: int)
      requires System() && p in heap
      modifies this`heap, this`freed
      ensures System() && heap == old(heap) - {p} && freed == old(freed) + [p]
    {
      heap := heap - {p};
      freed := freed + [p];
      assert heap.Keys == old(heap).Keys - {p};
    }

    method PallocBlock(n: Size) returns (m: int)
      requires Sound() && n <= max
      modifies this`blocks, this`current, this`heap, this`systemBreak, this`obtained, this`live
      ensures Sound() && m % ALIGNMENT == 0
      ensures |blocks| == |old(blocks)| + 1 && blocks[..|old(blocks)|] == old(blocks)
      ensures var b := m - BLOCK_HEADER; blocks[|old(blocks)|] == Block(b, m + n, b + size) && Clear(old(heap), b, size)
      ensures live == old(live) + {Region(m, n, In(|old(blocks)|))}
      ensures old(current) <= current < |old(blocks)|
      ensures Skips(old(blocks), old(current), current)
    {
      hide BlocksOk, LiveOk, LargeOk, Accounted, HeapApart, Clear, Full, System, Skips;
      var psize := size;
      var b := Malloc(psize);
      ghost var was, k, more := old(heap), Block(b, b + BLOCK_HEADER + n, b + size), Region(b + BLOCK_HEADER, n,
          In(|blocks|));
      ChainGrows(was, blocks, size, live, b, n);
      LargeKept(was, blocks, large, live, pending, b, size, k, more);
      m := b + BLOCK_HEADER;
      var cur := Onward();
      blocks := blocks + [Block(b, m + n, b + psize)];
      current := cur;
      live := live + {more};
    }

    // The new block a request is served from when no block has room.
    ghost predicate Chained(before: seq<Block>, heap0: Heap, live0: set<Region>, from: nat, m: int, n: nat)
      reads this
    {
      && |blocks| == |before| + 1 && blocks[..|before|] == before
      && blocks[|before|] == Block(m - BLOCK_HEADER, m + n, m - BLOCK_HEADER + size)
      && Clear(heap0, m - BLOCK_HEADER, size)
      && live == live0 + {Region(m, n, In(|before|))}
      && Skips(before, from, current)
    }

    // A request no longer than max: the first block from the current one on
    // with room serves it, or a new one does.
    ghost predicate Served(before: seq<Block>, heap0: Heap, live0: set<Region>, from: nat, m: int, n: nat,
        aligned: bool)
      reads this
      requires from <= |before|
    {
      var i := FirstFit(before, from, n, aligned);
      if i < |before| then
        && m == Mark(before[i], aligned)
        && blocks == Bumped(before, i, m, n) && current == from && heap == heap0
        && live == live0 + {Region(m, n, In(i))}
      else Chained(before, heap0, live0, from, m, n)
    }

    method Palloc(n: Size, ghost depth: nat) returns (m: int)
      requires Sound() && Serves(n, true) && Returns(max, n, depth) && (n > max ==> pending == {})
      modifies this`blocks, this`current, this`large, this`heap, this`systemBreak, this`obtained, this`live,
          this`pending
      ensures Sound() && pending == old(pending) && m % ALIGNMENT == 0
      ensures n <= max ==> large == old(large)
      ensures n <= max ==> Served(old(blocks), old(heap), old(live), old(current), m, n, true)
      ensures n > max ==> Recorded(old(large), old(heap), old(live), m, n)
      decreases depth, 1
    {
      hide BlocksOk, LiveOk, LargeOk, Accounted, HeapApart, Clear, FirstFit, Skips, Calls, Owed, System, HasRoom;
      if n <= max {
        ChosenFits(heap, blocks, size, current, n, true);
        var p := current;
        while true
          invariant unchanged(this)
          invariant current <= p < |blocks|
          invariant Chosen(blocks, current, n, true) == Chosen(blocks, p, n, true)
          decreases |blocks| - p
        {
          m := AlignUp(blocks[p].last);
          RoomAt(heap, blocks, size, p, n, true);
          if HasRoom(m, blocks[p].end, n) {
            Take(p, m, n);
            return;
          }
          p := p + 1;
          if p == |blocks| {
            break;
          }
        }
        m := PallocBlock(n);
      } else {
        m := PallocLarge(n, depth);
      }
    }

    method Pnalloc(n: Size, ghost depth: nat) returns (m: int)
      requires Valid() && Serves(n, false) && Returns(max, n, depth)
      modifies this`blocks, this`current, this`large, this`heap, this`systemBreak, this`obtained, this`live,
          this`pending
      ensures Valid()
      ensures n <= max ==> large == old(large)
      ensures n <= max ==> Served(old(blocks), old(heap), old(live), old(current), m, n, false)
      ensures n > max ==> Recorded(old(large), old(heap), old(live), m, n)
    {
      hide BlocksOk, LiveOk, LargeOk, Accounted, HeapApart, Clear, FirstFit, Skips, Calls, Owed, System, HasRoom;
      if n <= max {
        ChosenFits(heap, blocks, size, current, n, false);
        var p := current;
        while true
          invariant unchanged(this)
          invariant current <= p < |blocks|
          invariant Chosen(blocks, current, n, false) == Chosen(blocks, p, n, false)
          decreases |blocks| - p
        {
          m := blocks[p].last;
          RoomAt(heap, blocks, size, p, n, false);
          if HasRoom(m, blocks[p].end, n) {
            Take(p, m, n);
            return;
          }
          p := p + 1;
          if p == |blocks| {
            break;
          }
        }
        m := PallocBlock(n);
      } else {
        m := PallocLarge(n, depth);
      }
    }

    // p->d.last = m + size
    method Take(p: nat, m: int, n: nat)
      requires Sound() && p < |blocks| && blocks[p].last <= m && m + n <= blocks[p].end
      modifies this`blocks, this`live
      ensures Sound()
      ensures blocks == Bumped(old(blocks), p, m, n) && live == old(live) + {Region(m, n, In(p))}
    {
      hide BlocksOk, LiveOk, LargeOk, Accounted, Calls, Owed, System;
      BumpKeeps(heap, blocks, size, live, p, m, n);
      LargeStays(heap, blocks, large, live, pending, p, m, n, Region(m, n, In(p)));
      blocks := Bumped(blocks, p, m, n);
      live := live + {Region(m, n, In(p))};
    }

    // A large object: a system block of its own, entered at the front of the
    // list in a record cut from the pool.
    ghost predicate Recorded(large0: seq<Large>, heap0: Heap, live0: set<Region>, m: int, n: nat)
      reads this
    {
      && large != [] && large[1..] == large0 && large[0].alloc == m
      && Clear(heap0, m, n)
      && exists i :: live == live0 + {Region(m, n, Own), Region(large[0].at, LARGE_RECORD, In(i))}
    }

    method PallocLarge(n: Size, ghost depth: nat) returns (m: int)
      requires Valid() && n > max && Serves(n, true) && Returns(max, n, depth)
      modifies this`blocks, this`current, this`large, this`heap, this`systemBreak, this`obtained, this`live,
          this`pending
      ensures Valid() && m % ALIGNMENT == 0
      ensures Recorded(old(large), old(heap), old(live), m, n)
      decreases depth, 0
    {
      hide BlocksOk, LiveOk, LargeOk, Accounted, HeapApart, Clear, FirstFit, Skips, Mark, Calls, Owed, System;
      m := Malloc(n);
      LargePending(old(heap), blocks, size, large, live, m, n);
      live := live + {Region(m, n, Own)};
      pending := {m};
      RecursionEnds(n, max);
      var at := Palloc(LARGE_RECORD, depth - 1);
      OwnOwned(heap, blocks, live, Region(m, n, Own));
      TwoRegions(old(live), Region(m, n, Own), at, LARGE_RECORD);
      LargeEntered(heap, blocks, large, live, m, n, at);
      large := [Large(at, m)] + large;
      pending := {};
    }

    // Frees a large object early. A null pointer matches a record already
    // emptied, and nothing happens.
    method Pfree(p: int) returns (rc: int)
      requires Valid()
      modifies this`large, this`heap, this`freed, this`live
      ensures Valid()
      ensures rc == 0 <==> exists k :: 0 <= k < |old(large)| && old(large)[k].alloc == p
      ensures rc == 0 || rc == -1
      ensures |large| == |old(large)|
      ensures forall k :: 0 <= k < |large| ==>
                large[k] == if old(large)[k].alloc == p then Large(old(large)[k].at, 0) else old(large)[k]
      ensures rc == 0 && p != 0 ==>
                && p in old(heap) && heap == old(heap) - {p} && freed == old(freed) + [p]
                && Region(p, old(heap)[p], Own) in old(live)
                && live == old(live) - {Region(p, old(heap)[p], Own)}
      ensures rc == -1 || p == 0 ==> heap == old(heap) && freed == old(freed) && live == old(live)
    {
      hide BlocksOk, LiveOk, LargeOk, Accounted, HeapApart, Calls, Owed, System;
      var k := 0;
      while k < |large|
        invariant unchanged(this) && 0 <= k <= |large|
        invariant forall j :: 0 <= j < k ==> large[j].alloc != p
      {
        if large[k].alloc == p {
          LargeFreed(heap, blocks, size, large, live, k);
          if p != 0 {
            live := live - {Region(p, heap[p], Own)};
            Free(p);
          }
          large := large[k := large[k].(alloc := 0)];
          return 0;
        }
        k := k + 1;
      }
      return -1;
    }

    method CleanupAdd(handler: int, data: int, ghost depth: nat) returns (at: int)
      requires Valid() && Serves(CLEANUP_RECORD, true) && Returns(max, CLEANUP_RECORD, depth)
      modifies this`blocks, this`current, this`large, this`heap, this`systemBreak, this`obtained, this`live,
               this`pending, this`cleanup, this`registered
      ensures Valid()
      ensures cleanup == [Cleanup(at, handler, data)] + old(cleanup)
      ensures registered == old(registered) + [Call(handler, data)]
    {
      hide BlocksOk, LiveOk, LargeOk, Accounted, HeapApart, System, Served, Recorded, Calls, Owed;
      at := Palloc(CLEANUP_RECORD, depth);
      cleanup := [Cleanup(at, handler, data)] + cleanup;
      registered := registered + [Call(handler, data)];
      OwedMore(old(cleanup), old(registered), cleanup[0]);
    }

    // Each handler is called with its data, the last registered first.
    method RunCleanups()
      requires Calls(cleanup) == Owed(registered)
      modifies this`ran
      ensures ran == old(ran) + Owed(registered)
    {
      var c := 0;
      while c < |cleanup|
        invariant 0 <= c <= |cleanup|
        invariant ran + Calls(cleanup[c..]) == old(ran) + Calls(cleanup)
      {
        assert cleanup[c..][1..] == cleanup[c + 1..];
        if cleanup[c].handler != 0 {
          ran := ran + [Call(cleanup[c].handler, cleanup[c].data)];
        }
        c := c + 1;
      }
    }

    method FreeLarge()
      requires System() && LargeOk(heap, blocks, large, live)
      modifies this`heap, this`freed
      ensures System() && freed == old(freed) + Allocs(large)
      ensures heap == Without(old(heap), Allocs(large))
    {
      hide System, HeapApart, Without, Allocs, BlocksOk, LiveOk;
      var l := 0;
      NoAllocs(large);
      while l < |large|
        invariant 0 <= l <= |large| && System()
        invariant freed + Allocs(large[l..]) == old(freed) + Allocs(large)
        invariant Without(heap, Allocs(large[l..])) == Without(old(heap), Allocs(large))
        invariant forall k :: l <= k < |large| && large[k].alloc != 0 ==> large[k].alloc in heap
      {
        AllocsFirst(large, l);
        if large[l].alloc != 0 {
          WithoutMore(heap, large[l].alloc, Allocs(large[l + 1..]));
          Regrouped(freed, large[l].alloc, Allocs(large[l + 1..]));
          Free(large[l].alloc);
        }
        l := l + 1;
      }
      WithoutNone(heap);
      NoAllocs(large);
    }

    // Frees the chain from block i on.
    method FreeBlocks(i: nat)
      requires System() && i <= |blocks| && BlocksIn(heap, blocks)
      modifies this`heap, this`freed
      ensures System() && freed == old(freed) + Bases(blocks)[i..]
      ensures heap == Without(old(heap), Bases(blocks)[i..])
    {
      hide System, HeapApart, Bases;
      var p, all := i, Bases(blocks);
      WithoutNone(heap);
      while p < |blocks|
        invariant i <= p <= |blocks| && System()
        invariant freed + all[p..] == old(freed) + all[i..]
        invariant Without(heap, all[p..]) == Without(old(heap), all[i..])
        invariant forall k :: p <= k < |blocks| ==> blocks[k].base in heap
      {
        assert all[p..] == [blocks[p].base] + all[p + 1..];
        WithoutMore(heap, blocks[p].base, all[p + 1..]);
        Free(blocks[p].base);
        p := p + 1;
      }
      WithoutNone(heap);
    }

    // The fields as pool_create sets them.
    method Reset()
      requires Shape() && System() && |blocks| >= 1 && blocks[0].base % ALIGNMENT == 0 && blocks[0].base > 0
      requires heap == map[blocks[0].base := size] && pending == {}
      modifies this`blocks, this`current, this`large, this`cleanup, this`live, this`registered
      ensures Valid() && New() && blocks[0].base == old(blocks)[0].base
    {
      hide System, BlocksOk, LiveOk, LargeOk, Accounted, Calls, Owed;
      var base := blocks[0].base;
      blocks := [Block(base, base + POOL_HEADER, base + size)];
      current, large, cleanup := 0, [], [];
      live, registered := {}, [];
      NewOk(base, size);
    }

    // The part clearing and destroying share: the cleanups, the large objects,
    // then the chain from block i on.
    method Release(i: nat)
      requires Valid() && i <= |blocks|
      modifies this`heap, this`freed, this`ran
      ensures System()
      ensures ran == old(ran) + Owed(registered)
      ensures freed == old(freed) + Allocs(large) + Bases(blocks)[i..]
      ensures heap == Without(Without(old(heap), Allocs(large)), Bases(blocks)[i..])
    {
      hide System, Allocs, Bases, Calls, Owed, BlocksOk, LiveOk, LargeOk, BlocksIn, Accounted, Without;
      RunCleanups();
      FreeLarge();
      AllocsGone(old(heap), blocks, size, large, live);
      FreeBlocks(i);
    }

    // Back to one empty block: everything else is freed, every cleanup run.
    method ClearPool()
      requires Valid()
      modifies this
      ensures Valid() && New() && blocks[0].base == old(blocks)[0].base
      ensures ran == old(ran) + Owed(old(registered))
      ensures freed == old(freed) + Allocs(old(large)) + Bases(old(blocks))[1..]
      ensures obtained == old(obtained)
    {
      hide HeapApart, Allocs, Bases, Calls, Owed, BlocksOk, LiveOk, LargeOk, Accounted, Without, New;
      BaseAligned(heap, blocks, size);
      OneLeft(heap, blocks, size, large, live);
      Release(1);
      Reset();
    }

    // Everything obtained has been freed exactly once, every cleanup run once.
    method Destroy()
      requires Valid()
      modifies this`heap, this`freed, this`ran
      ensures ran == old(ran) + Owed(registered)
      ensures freed == old(freed) + Allocs(large) + Bases(blocks)
      ensures heap == map[] && multiset(freed) == multiset(obtained)
    {
      hide HeapApart, Allocs, Bases, Calls, Owed, BlocksOk, LiveOk, LargeOk, Accounted, Without;
      NoneLeft(heap, blocks, size, large, live);
      Release(0);
    }

    // Where the next search begins.
    method Onward() returns (cur: nat)
      requires Shape() && current < |blocks| && exists h: Heap :: BlocksOk(h, blocks, size)
      ensures Skips(blocks, current, cur)
    {
      cur := current;
      var p := current;
      while p + 1 < |blocks|
        invariant current <= cur <= p < |blocks|
        invariant cur > current ==> Full(blocks[cur - 1])
        invariant forall i :: cur <= i < p ==> !Full(blocks[i])
      {
        ghost var h: Heap :| BlocksOk(h, blocks, size);
        assert BlockOk(h, blocks[p], p, size);
        if Unsigned(blocks[p].end - blocks[p].last) < ALIGNMENT {
          cur := p + 1;
        }
        p := p + 1;
      }
    }
  }

  // A block with no room left even for one aligned unit.
  ghost predicate Full(b: Block) {
    b.end - b.last < ALIGNMENT
  }

  // The search starts past the last full block that has a successor.
  ghost predicate Skips(blocks: seq<Block>, from: nat, to: nat) {
    && from <= to < |blocks|
    && (to > from ==> Full(blocks[to - 1]))
    && (forall i :: to <= i < |blocks| - 1 ==> !Full(blocks[i]))
  }

  // A block is full when eight bytes do not fit behind its mark.
  lemma FullMeans(b: Block)
    ensures Full(b) <==> b.last + 8 > b.end
  {
  }

  // So skipping is determined by the blocks, and loses no room exactly when all
  // the blocks passed over were full.
  lemma SkipsOne(blocks: seq<Block>, from: nat, to: nat, other: nat)
    requires Skips(blocks, from, to) && Skips(blocks, from, other)
    ensures to == other
  {
    hide Full;
  }

  lemma SkipsRoom(blocks: seq<Block>, from: nat, to: nat)
    requires Skips(blocks, from, to)
    ensures (forall n: nat :: n >= 8 ==> to <= FirstFit(blocks, from, n, false))
            <==> forall i :: from <= i < to ==> Full(blocks[i])
  {
    hide FirstFit;
    if forall i :: from <= i < to ==> Full(blocks[i]) {
      forall n: nat | n >= 8 ensures to <= FirstFit(blocks, from, n, false) {
        FullSkipped(blocks, from, to, n);
      }
    } else {
      var i :| from <= i < to && !Full(blocks[i]);
      assert FirstFit(blocks, from, 8, false) <= i;
    }
  }

  lemma {:induction false} FullSkipped(blocks: seq<Block>, from: nat, to: nat, n: nat)
    requires from <= to <= |blocks| && n >= 8 && forall i :: from <= i < to ==> Full(blocks[i])
    ensures to <= FirstFit(blocks, from, n, false)
    decreases |blocks| - from
  {
    if from < to { FullSkipped(blocks, from + 1, to, n); }
  }

  // A block with room is passed over when a full one follows it.
  lemma RoomPassedOver()
    ensures Skips([Block(8, 80, 136), Block(136, 264, 264), Block(264, 288, 392)], 0, 2)
    ensures FirstFit([Block(8, 80, 136), Block(136, 264, 264), Block(264, 288, 392)], 0, 56, true) == 0
    ensures FirstFit([Block(8, 80, 136), Block(136, 264, 264), Block(264, 288, 392)], 2, 56, true) == 2
  {
  }
}
