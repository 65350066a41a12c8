/** Whole runs of the allocator: any interleaving of the three calls, from the freshly initialised pool. */
module HeapRuns {
  import opened Blocks

  ghost predicate Takes(h: Heap, g: Heap, b: nat, n: nat) {
    h.Tiled() && h.IsFree(b) && MIN_BLOCK <= n <= h.blocks[b].size && n % 8 == 0 && g == Take(h, b, n)
  }

  ghost predicate Releases(h: Heap, g: Heap, a: nat) {
    h.Tiled() && h.IsLive(a) && g == Release(h, a)
  }

  ghost predicate Resizes(h: Heap, g: Heap, a: nat, n: nat) {
    && h.Tiled() && h.IsLive(a) && MIN_BLOCK <= n <= JoinNext(h, a).blocks[a].size && n % 8 == 0
    && g == Resize(h, a, n)
  }

  /** The block b is put to use in the place of a, which is then given back. */
  ghost predicate Moves(h: Heap, g: Heap, a: nat, b: nat, n: nat) {
    && h.Tiled() && h.IsLive(a) && h.IsFree(b) && MIN_BLOCK <= n <= h.blocks[b].size && n % 8 == 0
    && Releases(Take(h, b, n), g, a)
  }

  /** What malloc_ex, free_ex, and realloc_ex in place do to the blocks. */
  ghost predicate Step(h: Heap, g: Heap) {
    || (exists b, n :: Takes(h, g, b, n))
    || (exists a :: Releases(h, g, a))
    || (exists a, n :: Resizes(h, g, a, n))
  }

  /** One call of malloc_ex, free_ex or realloc_ex; it may have no effect, as when no memory is left. */
  ghost predicate Call(h: Heap, g: Heap) {
    h == g || Step(h, g) || exists a, b, n :: Moves(h, g, a, b, n)
  }

  ghost predicate IsRun(run: seq<Heap>, first: nat, end: nat) {
    && 0 < first && first % 8 == 0 && end % 8 == 0 && first + WHOLE_HEADER <= end
    && |run| > 0 && run[0] == Initial(first, end)
    && forall i {:trigger run[i]} | 0 < i < |run| :: Call(run[i - 1], run[i])
  }

  lemma InitialTiled(first: nat, end: nat)
    requires 0 < first && first % 8 == 0 && end % 8 == 0 && first + WHOLE_HEADER <= end
    ensures Initial(first, end).Tiled() && Initial(first, end).Coalesced()
  {
    var g := Initial(first, end);
    assert g.BlockAt(first) && g.BlockAt(end);
    assert forall x, y {:trigger g.Apart(x, y)} | x in g.blocks && y in g.blocks :: g.Apart(x, y);
  }

  lemma StepKeeps(h: Heap, g: Heap)
    requires h.Tiled() && h.Coalesced() && Step(h, g)
    ensures g.Tiled() && g.Coalesced() && g.first == h.first && g.end == h.end
  {
    if b, n :| Takes(h, g, b, n) {
      TakeCoalesced(h, b, n);
    } else if a :| Releases(h, g, a) {
      ReleaseCoalesced(h, a);
    } else {
      var a, n :| Resizes(h, g, a, n);
      ResizeCoalesced(h, a, n);
    }
  }

  /** A call is nothing, one step, or two. */
  lemma CallIsSteps(h: Heap, g: Heap)
    requires Call(h, g)
    ensures h == g || Step(h, g) || exists k :: Step(h, k) && Step(k, g)
  {
    if a, b, n :| Moves(h, g, a, b, n) {
      assert Takes(h, Take(h, b, n), b, n);
      assert Step(h, Take(h, b, n)) && Step(Take(h, b, n), g);
    }
  }

  lemma CallKeeps(h: Heap, g: Heap)
    requires h.Tiled() && h.Coalesced() && Call(h, g)
    ensures g.Tiled() && g.Coalesced() && g.first == h.first && g.end == h.end
  {
    CallIsSteps(h, g);
    hide Step;
    if h != g {
      if Step(h, g) {
        StepKeeps(h, g);
      } else {
        var k :| Step(h, k) && Step(k, g);
        StepKeeps(h, k);
        StepKeeps(k, g);
      }
    }
  }

  lemma ReleaseIsCall(h: Heap, g: Heap, a: nat)
    requires Releases(h, g, a)
    ensures Call(h, g)
  {
  }

  lemma ResizeIsCall(h: Heap, g: Heap, a: nat, n: nat)
    requires Resizes(h, g, a, n)
    ensures Call(h, g)
  {
  }

  lemma MoveIsCall(h: Heap, k: Heap, g: Heap, a: nat, b: nat, n: nat)
    requires h.IsLive(a) && Takes(h, k, b, n) && Releases(k, g, a)
    ensures Moves(h, g, a, b, n) && Call(h, g)
  {
    assert Moves(h, g, a, b, n);
  }

  /** A further call extends a run. */
  lemma RunExtended(run: seq<Heap>, first: nat, end: nat, g: Heap)
    requires IsRun(run, first, end) && Call(run[|run| - 1], g)
    ensures IsRun(run + [g], first, end)
  {
    var next := run + [g];
    forall i {:trigger next[i]} | 0 < i < |next|
      ensures Call(next[i - 1], next[i])
    {
      assert i < |run| ==> run[i] == next[i];
    }
  }

  /** In every state of every run the blocks tile the area, no two free blocks touch, the sizes and headers add up
      to the area, and once nothing is live the pool is the single free block it started with. */
  lemma {:induction false} RunInvariant(run: seq<Heap>, first: nat, end: nat, i: nat)
    requires IsRun(run, first, end) && i < |run|
    ensures var h := run[i];
      && h.Tiled() && h.Coalesced() && h.first == first && h.end == end
      && (forall x :: x in Chain(h, first) <==> x in h.blocks && x != end)
      && Footprint(h, Chain(h, first)) == end - first
      && (h.Live() == {} ==> h.blocks.Keys == {first, end} && h.IsFree(first) && h.blocks[first].size == Initial(first, end).blocks[first].size)
  {
    RunKeeps(run, first, end, i);
    BlocksFillArea(run[i]);
    if run[i].Live() == {} {
      NothingLive(run[i]);
    }
  }

  lemma {:induction false} RunKeeps(run: seq<Heap>, first: nat, end: nat, i: nat)
    requires IsRun(run, first, end) && i < |run|
    ensures run[i].Tiled() && run[i].Coalesced() && run[i].first == first && run[i].end == end
  {
    if i == 0 {
      InitialTiled(first, end);
    } else {
      RunKeeps(run, first, end, i - 1);
      CallKeeps(run[i - 1], run[i]);
    }
  }
}
