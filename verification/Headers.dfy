/** How the pool's words encode its blocks: the two words of each header, and where the free lists may write. */
module Headers {
  import opened Bits
  import opened SizeClasses
  import opened FreeLists
  import opened Blocks

  const SIZE := 4   // offset of the size word in a header

  // ----- the size word: bit 0 marks a free block, bit 1 a free predecessor

  function SizeOf(w: Word): Word {
    w - w % 4
  }

  predicate FreeBit(w: Word) {
    w % 2 == 1
  }

  predicate PrevBit(w: Word) {
    w % 4 >= 2
  }

  function SetFree(w: Word): Word {
    if FreeBit(w) then w else w + 1
  }

  function ClearFree(w: Word): Word {
    if FreeBit(w) then w - 1 else w
  }

  function SetPrev(w: Word): Word {
    if PrevBit(w) then w else w + 2
  }

  function ClearPrev(w: Word): Word {
    if PrevBit(w) then w - 2 else w
  }

  /** The bit (size & PREV_STATE) as a number. */
  function PrevState(w: Word): Word {
    if PrevBit(w) then 2 else 0
  }

  function B(b: bool, v: nat): nat {
    if b then v else 0
  }

  lemma Mod4(k: nat, r: nat)
    requires r < 4
    ensures (4 * k + r) % 4 == r
  {
  }

  lemma Mod2(k: nat, r: nat)
    requires r < 2
    ensures (2 * k + r) % 2 == r
  {
  }

  lemma TagMod(size: nat, r: nat)
    requires size % 8 == 0 && r < 4
    ensures (size + r) % 4 == r && (size + r) % 2 == r % 2
  {
    var k := size / 8;
    assert size == 8 * k;
    Mod4(2 * k, r);
    Mod2(4 * k + r / 2, r % 2);
  }

  /** A size word falls apart into the size and its two flags. */
  lemma TagParts(w: Word, size: nat, free: bool, prev: bool)
    requires size % 8 == 0 && w == size + B(free, 1) + B(prev, 2)
    ensures SizeOf(w) == size && FreeBit(w) == free && PrevBit(w) == prev
    ensures PrevState(w) == B(prev, 2) && ClearPrev(w) == size + B(free, 1) && ClearFree(w) == size + B(prev, 2)
    ensures SetPrev(w) == size + B(free, 1) + 2 && SetFree(w) == size + 1 + B(prev, 2)
  {
    TagMod(size, B(free, 1) + B(prev, 2));
  }

  function Tag(h: Heap, a: nat): nat
    requires a in h.blocks
  {
    h.blocks[a].size + B(h.blocks[a].free, 1) + B(h.PrevFree(a), 2)
  }

  ghost predicate HeaderAt(M: Memory, h: Heap, a: nat)
    requires a in h.blocks
  {
    && a + HEADER <= |M|
    && M[a + SIZE] == Tag(h, a)
    && (h.PrevFree(a) ==> M[a] == h.blocks[a].prev)
  }

  ghost predicate Encoded(M: Memory, h: Heap) {
    && |M| == h.end + HEADER
    && forall x {:trigger HeaderAt(M, h, x)} | x in h.blocks :: HeaderAt(M, h, x)
  }

  /** Every header is right except perhaps that of a and that of the block after it. */
  ghost predicate EncodedBut(M: Memory, h: Heap, a: nat)
    requires a in h.blocks
  {
    && |M| == h.end + HEADER
    && forall x {:trigger HeaderAt(M, h, x)} | x in h.blocks && x != a && x != h.Next(a) :: HeaderAt(M, h, x)
  }

  ghost predicate SameHeader(M: Memory, M': Memory, a: nat)
    requires a + HEADER <= |M| && |M'| == |M|
  {
    M'[a] == M[a] && M'[a + SIZE] == M[a + SIZE]
  }

  // ----- headers and links do not meet

  /** Listed addresses are blocks below the sentinel. */
  ghost predicate Within(L: Listing, h: Heap) {
    forall a | a in L :: a in h.blocks && a != h.end
  }

  lemma HeaderIsNoLink(L: Listing, h: Heap, a: nat)
    requires h.Tiled() && Within(L, h) && a in h.blocks
    ensures !LinkWord(L, a) && !LinkWord(L, a + SIZE)
  {
    assert h.BlockAt(a);
    forall x | x in L && (x + PREV == a || x + NEXT == a || x + PREV == a + SIZE || x + NEXT == a + SIZE)
      ensures false
    {
      assert h.BlockAt(x);
      Separate(h, x, a);
    }
  }

  lemma LinksKeepHeader(M: Memory, M': Memory, L: Listing, h: Heap, a: nat)
    requires h.Tiled() && Within(L, h) && OnlyLinksChange(M, M', L)
    requires |M| == h.end + HEADER && a in h.blocks
    ensures a + HEADER <= |M| && SameHeader(M, M', a)
  {
    assert h.BlockAt(a);
    HeaderIsNoLink(L, h, a);
  }

  lemma LinksKeepEncodedBut(M: Memory, M': Memory, L: Listing, h: Heap, a: nat)
    requires h.Tiled() && Within(L, h) && OnlyLinksChange(M, M', L)
    requires a in h.blocks && EncodedBut(M, h, a)
    ensures EncodedBut(M', h, a)
  {
    forall x {:trigger HeaderAt(M', h, x)} | x in h.blocks && x != a && x != h.Next(a)
      ensures HeaderAt(M', h, x)
    {
      assert HeaderAt(M, h, x);
      LinksKeepHeader(M, M', L, h, x);
    }
  }

  lemma LinksKeepEncoded(M: Memory, M': Memory, L: Listing, h: Heap)
    requires h.Tiled() && Within(L, h) && OnlyLinksChange(M, M', L) && Encoded(M, h)
    ensures Encoded(M', h)
  {
    forall x {:trigger HeaderAt(M', h, x)} | x in h.blocks
      ensures HeaderAt(M', h, x)
    {
      assert HeaderAt(M, h, x);
      LinksKeepHeader(M, M', L, h, x);
    }
  }

  // ----- one step at a time

  lemma MarkEncoded(M: Memory, h: Heap, a: nat, free: bool)
    requires h.Tiled() && Encoded(M, h) && a in h.blocks && a != h.end
    ensures EncodedBut(M, h.Mark(a, free), a)
  {
    var g := h.Mark(a, free);
    forall x {:trigger HeaderAt(M, g, x)} | x in g.blocks && x != a && x != g.Next(a)
      ensures HeaderAt(M, g, x)
    {
      assert HeaderAt(M, h, x) && h.BlockAt(x);
    }
  }

  lemma MergeEncoded(M: Memory, h: Heap, a: nat)
    requires h.Tiled() && a in h.blocks && a != h.end && EncodedBut(M, h, a)
    requires h.Next(a) in h.blocks && h.Next(a) != h.end && h.Next(h.Next(a)) in h.blocks
    ensures EncodedBut(M, h.Merge(a), a)
  {
    var g := h.Merge(a);
    var n := h.Next(a);
    forall x {:trigger HeaderAt(M, g, x)} | x in g.blocks && x != a && x != g.Next(a)
      ensures HeaderAt(M, g, x)
    {
      assert HeaderAt(M, h, x) && h.BlockAt(x);
    }
  }

  /** The doubt moves from a to its predecessor p when p absorbs a. */
  lemma AbsorbedEncoded(M: Memory, h: Heap, a: nat, p: nat)
    requires h.Tiled() && a in h.blocks && a != h.end && EncodedBut(M, h, a)
    requires a != h.first && p == h.blocks[a].prev && p in h.blocks && h.Next(p) == a && h.Next(a) in h.blocks
    ensures EncodedBut(M, h.Merge(p), p)
  {
    var g := h.Merge(p);
    forall x {:trigger HeaderAt(M, g, x)} | x in g.blocks && x != p && x != g.Next(p)
      ensures HeaderAt(M, g, x)
    {
      assert HeaderAt(M, h, x) && h.BlockAt(x);
    }
  }

  lemma SplitEncoded(M: Memory, h: Heap, a: nat, n: nat)
    requires h.Tiled() && a in h.blocks && a != h.end && EncodedBut(M, h, a)
    requires n >= MIN_BLOCK && n % 8 == 0 && n + WHOLE_HEADER <= h.blocks[a].size
    requires h.Next(a) in h.blocks && a + HEADER + n !in h.blocks
    requires var g := h.Split(a, n);
      HeaderAt(M, g, a) && HeaderAt(M, g, a + HEADER + n) && HeaderAt(M, g, h.Next(a))
    ensures Encoded(M, h.Split(a, n))
  {
    var g := h.Split(a, n);
    forall x {:trigger HeaderAt(M, g, x)} | x in g.blocks
      ensures HeaderAt(M, g, x)
    {
      if x != a && x != a + HEADER + n && x != h.Next(a) {
        assert HeaderAt(M, h, x) && h.BlockAt(x);
      }
    }
  }

  lemma WholeEncoded(M: Memory, h: Heap, a: nat)
    requires h.Tiled() && a in h.blocks && EncodedBut(M, h, a) && h.Next(a) in h.blocks
    requires HeaderAt(M, h, a) && HeaderAt(M, h, h.Next(a))
    ensures Encoded(M, h)
  {
  }
}
