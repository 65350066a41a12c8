/** The physical view of the pool of tlsf.c: blocks that follow one another from the first header to the sentinel. */
module Blocks {

  const HEADER := 8        // BHDR_OVERHEAD
  const MIN_BLOCK := 8     // MIN_BLOCK_SIZE
  const WHOLE_HEADER := 16 // sizeof (bhdr_t)

  /** A block is named by the address of its header; prev is its physical predecessor. */
  datatype Block = Block(size: nat, free: bool, prev: nat)

  /** blocks includes the sentinel, a used block of size 0 at end. */
  datatype Heap = Heap(first: nat, end: nat, blocks: map<nat, Block>) {

    function Next(a: nat): nat
      requires a in blocks
    {
      a + HEADER + blocks[a].size
    }

    predicate IsFree(a: int) {
      a in blocks && blocks[a].free
    }

    predicate IsLive(a: int) {
      a in blocks && a != end && !blocks[a].free
    }

    predicate PrevFree(a: nat)
      requires a in blocks
    {
      a != first && IsFree(blocks[a].prev)
    }

    function Live(): set<nat> {
      set a | a in blocks && IsLive(a)
    }

    ghost predicate BlockAt(a: nat)
      requires a in blocks
    {
      && first <= a <= end && a % 8 == 0
      && (a == end ==> blocks[a].size == 0 && !blocks[a].free)
      && (a != end ==>
        && blocks[a].size >= MIN_BLOCK && blocks[a].size % 8 == 0
        && Next(a) in blocks && Next(a) <= end && blocks[Next(a)].prev == a)
      && (a != first ==> blocks[a].prev in blocks && blocks[a].prev < a && Next(blocks[a].prev) == a)
    }

    ghost predicate Apart(a: nat, b: nat)
      requires a in blocks
    {
      a < b ==> Next(a) <= b
    }

    ghost predicate NotBothFree(a: nat)
      requires a in blocks
    {
      a != end && blocks[a].free ==> !IsFree(Next(a))
    }

    /** The blocks tile the area from first to the sentinel. */
    ghost predicate Tiled() {
      && 0 < first < end && first in blocks && end in blocks
      && (forall a {:trigger BlockAt(a)} | a in blocks :: BlockAt(a))
      && (forall a, b {:trigger Apart(a, b)} | a in blocks && b in blocks :: Apart(a, b))
    }

    ghost predicate Coalesced() {
      forall a {:trigger NotBothFree(a)} | a in blocks :: NotBothFree(a)
    }

    // ----- steps

    function Mark(a: nat, free: bool): Heap
      requires a in blocks
    {
      this.(blocks := blocks[a := blocks[a].(free := free)])
    }

    /** Joins a with the block after it. */
    function Merge(a: nat): Heap
      requires a in blocks && Next(a) in blocks
      requires Next(Next(a)) in blocks
    {
      var n, m := Next(a), Next(Next(a));
      this.(blocks := (blocks - {n})[a := blocks[a].(size := m - a - HEADER)][m := blocks[m].(prev := a)])
    }

    /** Cuts a down to size n; what is left over becomes a free block. */
    function Split(a: nat, n: nat): Heap
      requires a in blocks && Next(a) in blocks && n + HEADER <= blocks[a].size
    {
      var b, m := a + HEADER + n, Next(a);
      this.(blocks := blocks[a := blocks[a].(size := n)][b := Block(blocks[a].size - n - HEADER, true, a)]
                            [m := blocks[m].(prev := b)])
    }
  }

  lemma MarkTiled(h: Heap, a: nat, free: bool)
    requires h.Tiled() && a in h.blocks && a != h.end
    ensures h.Mark(a, free).Tiled()
  {
    var g := h.Mark(a, free);
    forall x | x in g.blocks ensures g.BlockAt(x) {
      assert h.BlockAt(x);
    }
    forall x, y | x in g.blocks && y in g.blocks ensures g.Apart(x, y) {
      assert h.Apart(x, y);
    }
  }

  lemma MergeBlockAt(h: Heap, a: nat, n: nat, m: nat, x: nat)
    requires h.Tiled() && a in h.blocks && a != h.end
    requires n == h.Next(a) && n in h.blocks && n != h.end && m == h.Next(n) && m in h.blocks
    requires x in h.blocks && x != n
    ensures h.Merge(a).BlockAt(x)
  {
    assert h.BlockAt(a) && h.BlockAt(n) && h.BlockAt(m);
    assert h.BlockAt(x);
  }

  lemma MergeApart(h: Heap, a: nat, n: nat, m: nat, x: nat, y: nat)
    requires h.Tiled() && a in h.blocks && a != h.end
    requires n == h.Next(a) && n in h.blocks && n != h.end && m == h.Next(n) && m in h.blocks
    requires x in h.blocks && x != n && y in h.blocks && y != n
    ensures h.Merge(a).Apart(x, y)
  {
    assert h.Apart(x, y) && h.Apart(n, y);
    assert h.BlockAt(n);
  }

  lemma MergeTiled(h: Heap, a: nat)
    requires h.Tiled() && a in h.blocks && a != h.end && h.Next(a) in h.blocks && h.Next(a) != h.end
    ensures h.Next(h.Next(a)) in h.blocks
    ensures h.Merge(a).Tiled()
  {
    var n := h.Next(a);
    assert h.BlockAt(a) && h.BlockAt(n);
    var m := h.Next(n);
    var g := h.Merge(a);
    forall x {:trigger g.BlockAt(x)} | x in g.blocks ensures g.BlockAt(x) {
      MergeBlockAt(h, a, n, m, x);
    }
    forall x, y {:trigger g.Apart(x, y)} | x in g.blocks && y in g.blocks ensures g.Apart(x, y) {
      MergeApart(h, a, n, m, x, y);
    }
  }

  lemma Separate(h: Heap, a: nat, b: nat)
    requires h.Tiled() && a in h.blocks && b in h.blocks
    ensures a < b ==> h.Next(a) <= b
  {
    assert h.Apart(a, b);
  }

  lemma NoTwoFree(h: Heap, a: nat)
    requires h.Coalesced() && a in h.blocks && a != h.end && h.IsFree(a)
    ensures !h.IsFree(h.Next(a))
  {
    assert h.NotBothFree(a);
  }

  lemma FreeAfterUsed(h: Heap, b: nat)
    requires h.Tiled() && h.Coalesced() && h.IsFree(b)
    ensures !h.PrevFree(b)
  {
    assert h.BlockAt(b) && h.BlockAt(h.end);
    if h.PrevFree(b) {
      NoTwoFree(h, h.blocks[b].prev);
    }
  }

  lemma SplitFresh(h: Heap, a: nat, n: nat)
    requires h.Tiled() && a in h.blocks && a != h.end
    requires n + WHOLE_HEADER <= h.blocks[a].size
    ensures h.Next(a) in h.blocks && a + HEADER + n !in h.blocks
  {
    assert h.BlockAt(a);
    if a + HEADER + n in h.blocks {
      Separate(h, a, a + HEADER + n);
    }
  }

  lemma SplitBlockAt(h: Heap, a: nat, n: nat, b: nat, x: nat)
    requires h.Tiled() && a in h.blocks && a != h.end
    requires n >= MIN_BLOCK && n % 8 == 0 && n + WHOLE_HEADER <= h.blocks[a].size
    requires b == a + HEADER + n && b !in h.blocks && h.Next(a) in h.blocks
    requires x == b || x in h.blocks
    ensures h.Split(a, n).BlockAt(x)
  {
    assert h.BlockAt(a);
    assert h.BlockAt(h.Next(a));
    if x != b {
      assert h.BlockAt(x);
    }
  }

  lemma SplitApart(h: Heap, a: nat, n: nat, b: nat, x: nat, y: nat)
    requires h.Tiled() && a in h.blocks && a != h.end
    requires n >= MIN_BLOCK && n % 8 == 0 && n + WHOLE_HEADER <= h.blocks[a].size
    requires b == a + HEADER + n && b !in h.blocks && h.Next(a) in h.blocks
    requires (x == b || x in h.blocks) && (y == b || y in h.blocks)
    ensures h.Split(a, n).Apart(x, y)
  {
    if x == b {
      if y != b {
        assert h.Apart(a, y);
      }
    } else if y == b {
      assert h.Apart(x, a) && h.Apart(a, x);
    } else {
      assert h.Apart(x, y);
    }
  }

  lemma SplitTiled(h: Heap, a: nat, n: nat)
    requires h.Tiled() && a in h.blocks && a != h.end
    requires n >= MIN_BLOCK && n % 8 == 0 && n + WHOLE_HEADER <= h.blocks[a].size
    ensures h.Next(a) in h.blocks
    ensures h.Split(a, n).Tiled()
  {
    SplitFresh(h, a, n);
    var b := a + HEADER + n;
    var g := h.Split(a, n);
    forall x {:trigger g.BlockAt(x)} | x in g.blocks ensures g.BlockAt(x) {
      SplitBlockAt(h, a, n, b, x);
    }
    forall x, y {:trigger g.Apart(x, y)} | x in g.blocks && y in g.blocks ensures g.Apart(x, y) {
      SplitApart(h, a, n, b, x, y);
    }
  }

  // ----- what the three allocator calls do to the blocks

  /** a, joined with the block after it if that is free. */
  ghost function JoinNext(h: Heap, a: nat): (g: Heap)
    requires h.Tiled() && a in h.blocks && a != h.end
    ensures g.Tiled() && a in g.blocks && g.first == h.first && g.end == h.end
    ensures g.blocks[a] == h.blocks[a].(size := g.blocks[a].size) && g.blocks[a].size >= h.blocks[a].size
  {
    assert h.BlockAt(a);
    if h.IsFree(h.Next(a)) then
      assert h.BlockAt(h.end) && h.BlockAt(h.Next(a));
      MergeTiled(h, a);
      h.Merge(a)
    else h
  }

  /** a, cut down to n if what is left over can hold a whole free block. */
  ghost function Trim(h: Heap, a: nat, n: nat): (g: Heap)
    requires h.Tiled() && a in h.blocks && a != h.end && MIN_BLOCK <= n <= h.blocks[a].size && n % 8 == 0
    ensures g.Tiled() && a in g.blocks && g.first == h.first && g.end == h.end
    ensures n <= g.blocks[a].size <= n + HEADER
    ensures g.blocks[a] == h.blocks[a].(size := g.blocks[a].size)
  {
    assert h.BlockAt(a);
    if h.blocks[a].size - n >= WHOLE_HEADER then
      SplitTiled(h, a, n);
      SplitFresh(h, a, n);
      h.Split(a, n)
    else h
  }

  /** malloc_ex: the free block b is put to use, cut down to n. */
  ghost function Take(h: Heap, b: nat, n: nat): (g: Heap)
    requires h.Tiled() && h.IsFree(b) && MIN_BLOCK <= n <= h.blocks[b].size && n % 8 == 0
    ensures g.Tiled()
  {
    assert h.BlockAt(h.end);
    MarkTiled(h, b, false);
    Trim(h.Mark(b, false), b, n)
  }

  /** free_ex: the live block a becomes free and absorbs its free neighbours. */
  ghost function Release(h: Heap, a: nat): (g: Heap)
    requires h.Tiled() && h.IsLive(a)
    ensures g.Tiled()
  {
    MarkTiled(h, a, true);
    assert h.BlockAt(a);
    var h1 := JoinNext(h.Mark(a, true), a);
    if h.PrevFree(a) then
      ReleasePrev(h, a);
      JoinNext(h1, h.blocks[a].prev)
    else h1
  }

  lemma ReleasePrev(h: Heap, a: nat)
    requires h.Tiled() && h.IsLive(a) && h.PrevFree(a)
    requires h.Mark(a, true).Tiled()
    ensures var p := h.blocks[a].prev; var h1 := JoinNext(h.Mark(a, true), a);
      p in h1.blocks && p != h1.end && p < a && h1.blocks[p] == h.blocks[p] && h1.Next(p) == a && h1.IsFree(a)
  {
    assert h.BlockAt(a);
    assert h.BlockAt(h.blocks[a].prev);
  }

  /** realloc_ex in place: the live block a absorbs a free successor and is cut down to n. */
  ghost function Resize(h: Heap, a: nat, n: nat): (g: Heap)
    requires h.Tiled() && h.IsLive(a) && MIN_BLOCK <= n <= JoinNext(h, a).blocks[a].size && n % 8 == 0
    ensures g.Tiled()
  {
    Trim(JoinNext(h, a), a, n)
  }

  // ----- what the steps keep

  lemma JoinNextExact(h: Heap, a: nat)
    requires h.Tiled() && a in h.blocks && a != h.end
    ensures var g := JoinNext(h, a); var n := h.Next(a);
      && n in h.blocks
      && (!h.IsFree(n) ==> g == h)
      && (h.IsFree(n) ==> n != h.end && h.Next(n) in h.blocks && g == h.Merge(a) && g.Next(a) == h.Next(n))
  {
    assert h.BlockAt(a) && h.BlockAt(h.end);
    assert h.BlockAt(h.Next(a));
  }

  /** Joining a free or used block keeps every other adjacent pair from being both free. */
  lemma JoinNextCoalesced(h: Heap, a: nat)
    requires h.Tiled() && a in h.blocks && a != h.end
    requires forall x {:trigger h.NotBothFree(x)} | x in h.blocks && x != a && h.Next(x) != a :: h.NotBothFree(x)
    ensures var g := JoinNext(h, a);
      && (forall x {:trigger g.NotBothFree(x)} | x in g.blocks && g.Next(x) != a :: g.NotBothFree(x))
  {
    var g, n := JoinNext(h, a), h.Next(a);
    JoinNextExact(h, a);
    assert h.BlockAt(a) && h.BlockAt(n);
    assert n != h.end ==> h.NotBothFree(n);
    forall x {:trigger g.NotBothFree(x)} | x in g.blocks && g.Next(x) != a
      ensures g.NotBothFree(x)
    {
      if x != a {
        assert h.NotBothFree(x);
        assert h.BlockAt(x);
      }
    }
  }

  lemma TrimCoalesced(h: Heap, a: nat, n: nat)
    requires h.Tiled() && a in h.blocks && a != h.end && MIN_BLOCK <= n <= h.blocks[a].size && n % 8 == 0
    requires h.Coalesced() && h.IsLive(a) && !h.IsFree(h.Next(a))
    ensures Trim(h, a, n).Coalesced()
  {
    var g := Trim(h, a, n);
    assert h.BlockAt(a);
    if h.blocks[a].size - n >= WHOLE_HEADER {
      SplitFresh(h, a, n);
    }
    forall x {:trigger g.NotBothFree(x)} | x in g.blocks
      ensures g.NotBothFree(x)
    {
      if x in h.blocks {
        assert h.NotBothFree(x) && h.BlockAt(x);
      }
    }
  }

  lemma TakeCoalesced(h: Heap, b: nat, n: nat)
    requires h.Tiled() && h.Coalesced() && h.IsFree(b) && MIN_BLOCK <= n <= h.blocks[b].size && n % 8 == 0
    ensures Take(h, b, n).Coalesced()
  {
    assert h.BlockAt(h.end) && h.BlockAt(b);
    MarkTiled(h, b, false);
    var g := h.Mark(b, false);
    forall x {:trigger g.NotBothFree(x)} | x in g.blocks
      ensures g.NotBothFree(x)
    {
      assert h.NotBothFree(x);
    }
    assert h.NotBothFree(b);
    TrimCoalesced(g, b, n);
  }

  lemma ResizeCoalesced(h: Heap, a: nat, n: nat)
    requires h.Tiled() && h.Coalesced() && h.IsLive(a)
    requires MIN_BLOCK <= n <= JoinNext(h, a).blocks[a].size && n % 8 == 0
    ensures Resize(h, a, n).Coalesced()
  {
    var g := JoinNext(h, a);
    JoinNextCoalesced(h, a);
    JoinNextExact(h, a);
    forall x {:trigger g.NotBothFree(x)} | x in g.blocks
      ensures g.NotBothFree(x)
    {
    }
    assert h.NotBothFree(h.Next(a));
    TrimCoalesced(g, a, n);
  }

  lemma NextIsUnique(h: Heap, a: nat, x: nat)
    requires h.Tiled() && a in h.blocks && x in h.blocks && h.Next(x) == a
    ensures a != h.first && x == h.blocks[a].prev
  {
    assert h.BlockAt(x) && h.BlockAt(a);
  }

  lemma ReleaseCoalesced(h: Heap, a: nat)
    requires h.Tiled() && h.Coalesced() && h.IsLive(a)
    ensures Release(h, a).Coalesced()
  {
    MarkTiled(h, a, true);
    var h0 := h.Mark(a, true);
    forall x {:trigger h0.NotBothFree(x)} | x in h0.blocks && x != a && h0.Next(x) != a
      ensures h0.NotBothFree(x)
    {
      assert h.NotBothFree(x);
    }
    JoinNextCoalesced(h0, a);
    var h1 := JoinNext(h0, a);
    JoinNextExact(h0, a);
    assert h.BlockAt(a);
    if h.PrevFree(a) {
      ReleasePrev(h, a);
      ReleaseCoalescedPrev(h, a, h1);
    } else {
      forall x {:trigger h1.NotBothFree(x)} | x in h1.blocks
        ensures h1.NotBothFree(x)
      {
        if h1.Next(x) == a {
          NextIsUnique(h1, a, x);
        }
      }
    }
  }

  lemma ReleaseCoalescedPrev(h: Heap, a: nat, h1: Heap)
    requires h.Tiled() && h.Coalesced() && h.IsLive(a) && h.PrevFree(a)
    requires h.Mark(a, true).Tiled() && h1 == JoinNext(h.Mark(a, true), a)
    requires forall x {:trigger h1.NotBothFree(x)} | x in h1.blocks && h1.Next(x) != a :: h1.NotBothFree(x)
    ensures h.blocks[a].prev in h1.blocks && h.blocks[a].prev != h1.end
    ensures JoinNext(h1, h.blocks[a].prev).Coalesced()
  {
    var p := h.blocks[a].prev;
    ReleasePrev(h, a);
    forall x {:trigger h1.NotBothFree(x)} | x in h1.blocks && x != p && h1.Next(x) != p
      ensures h1.NotBothFree(x)
    {
      if h1.Next(x) == a {
        NextIsUnique(h1, a, x);
      }
    }
    JoinNextCoalesced(h1, p);
    JoinNextExact(h1, p);
    JoinNextExact(h.Mark(a, true), a);
    var g := JoinNext(h1, p);
    forall x {:trigger g.NotBothFree(x)} | x in g.blocks
      ensures g.NotBothFree(x)
    {
      if g.Next(x) == p {
        assert h.NotBothFree(x);
      }
    }
  }

  // ----- what the calls do to live blocks

  /** The live blocks of h, other than a, are live in g with the same size. */
  ghost predicate OthersKept(h: Heap, g: Heap, a: nat) {
    forall x | h.IsLive(x) && x != a :: g.IsLive(x) && g.blocks[x].size == h.blocks[x].size
  }

  lemma JoinNextLive(h: Heap, a: nat)
    requires h.Tiled() && a in h.blocks && a != h.end
    ensures JoinNext(h, a).Live() == h.Live()
    ensures OthersKept(h, JoinNext(h, a), a)
  {
    JoinNextExact(h, a);
    var g := JoinNext(h, a);
    assert forall x :: x in g.Live() <==> x in h.Live();
  }

  lemma TrimLive(h: Heap, a: nat, n: nat)
    requires h.Tiled() && a in h.blocks && a != h.end && MIN_BLOCK <= n <= h.blocks[a].size && n % 8 == 0
    ensures Trim(h, a, n).Live() == h.Live()
    ensures OthersKept(h, Trim(h, a, n), a)
  {
    var g := Trim(h, a, n);
    assert h.BlockAt(a);
    if h.blocks[a].size - n >= WHOLE_HEADER {
      SplitFresh(h, a, n);
    }
    assert forall x :: x in g.Live() <==> x in h.Live();
  }

  /** malloc_ex makes exactly one more block live, of at least the size asked and at most 8 bytes more. */
  lemma TakeLive(h: Heap, b: nat, n: nat)
    requires h.Tiled() && h.IsFree(b) && MIN_BLOCK <= n <= h.blocks[b].size && n % 8 == 0
    ensures var g := Take(h, b, n);
      && b !in h.Live() && g.Live() == h.Live() + {b} && OthersKept(h, g, b)
      && n <= g.blocks[b].size <= n + HEADER
  {
    assert h.BlockAt(h.end);
    MarkTiled(h, b, false);
    var h0 := h.Mark(b, false);
    TrimLive(h0, b, n);
    assert h0.Live() == h.Live() + {b};
  }

  /** free_ex makes exactly the freed block not live. */
  lemma ReleaseLive(h: Heap, a: nat)
    requires h.Tiled() && h.IsLive(a)
    ensures Release(h, a).Live() == h.Live() - {a}
    ensures OthersKept(h, Release(h, a), a)
  {
    MarkTiled(h, a, true);
    var h0 := h.Mark(a, true);
    assert h0.Live() == h.Live() - {a};
    JoinNextLive(h0, a);
    if h.PrevFree(a) {
      ReleasePrev(h, a);
      JoinNextLive(JoinNext(h0, a), h.blocks[a].prev);
    }
  }

  /** realloc_ex in place keeps the live blocks, and resizes only its own. */
  lemma ResizeLive(h: Heap, a: nat, n: nat)
    requires h.Tiled() && h.IsLive(a)
    requires MIN_BLOCK <= n <= JoinNext(h, a).blocks[a].size && n % 8 == 0
    ensures var g := Resize(h, a, n);
      && g.Live() == h.Live() && OthersKept(h, g, a)
      && n <= g.blocks[a].size <= n + HEADER
  {
    JoinNextLive(h, a);
    TrimLive(JoinNext(h, a), a, n);
  }

  // ----- the shape of a valid heap

  /** The blocks from a to the sentinel, in address order. */
  ghost function Chain(h: Heap, a: nat): seq<nat>
    requires h.Tiled() && a in h.blocks
    decreases h.end + 1 - a
  {
    assert h.BlockAt(a);
    if a == h.end then [] else [a] + Chain(h, h.Next(a))
  }

  ghost function Footprint(h: Heap, c: seq<nat>): nat
    requires forall x | x in c :: x in h.blocks
  {
    if c == [] then 0 else HEADER + h.blocks[c[0]].size + Footprint(h, c[1..])
  }

  lemma {:induction false} ChainFrom(h: Heap, a: nat)
    requires h.Tiled() && a in h.blocks
    ensures forall x :: x in Chain(h, a) <==> x in h.blocks && a <= x && x != h.end
    ensures Footprint(h, Chain(h, a)) == h.end - a
    decreases h.end + 1 - a
  {
    assert h.BlockAt(a);
    if a != h.end {
      var rest := Chain(h, h.Next(a));
      ChainFrom(h, h.Next(a));
      assert Chain(h, a)[1..] == rest;
      forall x
        ensures x in Chain(h, a) <==> x in h.blocks && a <= x && x != h.end
      {
        if x in h.blocks {
          Separate(h, a, x);
        }
      }
    } else {
      forall x | x in h.blocks && a <= x
        ensures x == h.end
      {
        assert h.BlockAt(x);
      }
    }
  }

  /** The blocks, each with its header, fill the area exactly: their sizes always add up to the same sum. */
  lemma BlocksFillArea(h: Heap)
    requires h.Tiled()
    ensures forall x :: x in Chain(h, h.first) <==> x in h.blocks && x != h.end
    ensures Footprint(h, Chain(h, h.first)) == h.end - h.first
  {
    ChainFrom(h, h.first);
    forall x | x in h.blocks
      ensures h.first <= x
    {
      assert h.BlockAt(x);
    }
  }

  /** The heap init_memory_pool builds: one free block and the sentinel. */
  function Initial(first: nat, end: nat): Heap
    requires first + HEADER <= end
  {
    Heap(first, end, map[first := Block(end - first - HEADER, true, 0), end := Block(0, false, first)])
  }

  /** A heap without live blocks is the initial one. */
  lemma NothingLive(h: Heap)
    requires h.Tiled() && h.Coalesced() && h.Live() == {}
    ensures h.Next(h.first) == h.end && h.IsFree(h.first) && h.blocks.Keys == {h.first, h.end}
    ensures h.blocks[h.first].size == h.end - h.first - HEADER
  {
    assert h.BlockAt(h.first) && h.NotBothFree(h.first);
    var n := h.Next(h.first);
    forall x
      ensures !h.IsLive(x)
    {
      assert x !in h.Live();
    }
    assert !h.IsLive(h.first) && !h.IsLive(n);
    forall x | x in h.blocks
      ensures x == h.first || x == h.end
    {
      assert h.BlockAt(x);
      Separate(h, h.first, x);
    }
  }

  ghost function ReleaseAll(h: Heap, ps: seq<nat>): Heap
    requires h.Tiled() && (forall p | p in ps :: h.IsLive(p))
    requires forall i, j | 0 <= i < j < |ps| :: ps[i] != ps[j]
    decreases ps
  {
    if ps == [] then h
    else
      ReleaseLive(h, ps[0]);
      assert forall p | p in ps[1..] :: p in h.Live() - {ps[0]};
      ReleaseAll(Release(h, ps[0]), ps[1..])
  }

  lemma {:induction false} ReleaseAllLive(h: Heap, ps: seq<nat>)
    requires h.Tiled() && h.Coalesced() && (forall p | p in ps :: h.IsLive(p))
    requires forall i, j | 0 <= i < j < |ps| :: ps[i] != ps[j]
    ensures var g := ReleaseAll(h, ps);
      && g.Tiled() && g.Coalesced() && g.first == h.first && g.end == h.end
      && g.Live() == h.Live() - (set p | p in ps)
    decreases ps
  {
    if ps != [] {
      ReleaseLive(h, ps[0]);
      ReleaseCoalesced(h, ps[0]);
      assert forall p | p in ps[1..] :: p in h.Live() - {ps[0]};
      ReleaseAllLive(Release(h, ps[0]), ps[1..]);
    }
  }

  /** Freeing every live block, in any order, leaves one free block: the one the pool started with. */
  lemma FreeingAllRestores(h: Heap, ps: seq<nat>)
    requires h.Tiled() && h.Coalesced() && (forall p :: p in ps <==> p in h.Live())
    requires forall i, j | 0 <= i < j < |ps| :: ps[i] != ps[j]
    ensures var g := ReleaseAll(h, ps);
      && g.blocks.Keys == {h.first, h.end} && g.IsFree(h.first)
      && g.blocks[h.first].size == h.end - h.first - HEADER
  {
    assert forall p | p in ps :: p in h.Live();
    ReleaseAllLive(h, ps);
    assert ReleaseAll(h, ps).Live() == {};
    NothingLive(ReleaseAll(h, ps));
  }
}
