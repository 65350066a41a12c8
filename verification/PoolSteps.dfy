/** Stores into the pool, seen against the blocks and the free lists at once. */
module PoolSteps {
  import opened Bits
  import opened SizeClasses
  import opened FreeLists
  import opened Blocks
  import opened Headers
  import opened HeapRuns

  function ClassOf(n: nat): nat
    requires n < SIZE_LIMIT
  {
    InsertExact(n);
    MappingInsert(n).Flat()
  }

  lemma ClassOfIs(n: nat)
    requires n < SIZE_LIMIT
    ensures MappingInsert(n).InTable() && MappingInsert(n).Flat() == ClassOf(n)
  {
    InsertExact(n);
  }

  ghost predicate ListedAt(h: Heap, L: Listing, a: int) {
    && (a in L <==> h.IsFree(a))
    && (a in L ==> h.blocks[a].size < SIZE_LIMIT && L[a].cls == ClassOf(h.blocks[a].size))
  }

  /** The free lists hold exactly the free blocks, each under the class of its size. */
  ghost predicate Listed(h: Heap, L: Listing) {
    forall a: int {:trigger ListedAt(h, L, a)} :: ListedAt(h, L, a)
  }

  ghost predicate HeapValid(h: Heap) {
    h.Tiled() && h.Coalesced() && h.end + HEADER <= SIZE_LIMIT
  }

  lemma ListedWithin(h: Heap, L: Listing)
    requires h.Tiled() && Listed(h, L)
    ensures Within(L, h)
  {
    assert h.BlockAt(h.end);
    forall a | a in L
      ensures a in h.blocks && a != h.end
    {
      assert ListedAt(h, L, a);
    }
  }

  lemma BlockBounds(h: Heap, a: nat)
    requires HeapValid(h) && a in h.blocks
    ensures 0 < a && a % 8 == 0 && h.Next(a) <= h.end + HEADER
    ensures a + HEADER <= h.end + HEADER && h.blocks[a].size < SIZE_LIMIT
    ensures a != h.end ==> h.blocks[a].size >= MIN_BLOCK && h.blocks[a].size % 8 == 0 && h.Next(a) in h.blocks && h.Next(a) <= h.end
  {
    assert h.BlockAt(a);
  }

  // ----- stores that miss the links

  lemma StoreKeepsLinked(M: Memory, heads: seq<Word>, L: Listing, clock: nat, x: nat, v: Word)
    requires Linked(M, heads, L, clock) && x < |M| && !LinkWord(L, x)
    ensures Linked(M[x := v], heads, L, clock)
  {
    var M' := M[x := v];
    forall a {:trigger LinkedAt(M', heads, L, a)} | a in L
      ensures LinkedAt(M', heads, L, a) && L[a].stamp < clock
    {
      assert LinkedAt(M, heads, L, a);
    }
    forall c {:trigger HeadAt(M', L, c, heads[c])} | 0 <= c < CLASSES
      ensures HeadAt(M', L, c, heads[c])
    {
      assert HeadAt(M, L, c, heads[c]);
    }
  }

  /** The header of an unlisted block, its payload, and the header after it hold no links. */
  lemma InsideIsNoLink(h: Heap, L: Listing, b: nat, x: nat)
    requires h.Tiled() && Within(L, h) && b in h.blocks && b !in L
    requires b <= x < h.Next(b) + HEADER
    ensures !LinkWord(L, x)
  {
    forall l | l in L && (l + PREV == x || l + NEXT == x)
      ensures false
    {
      assert h.BlockAt(l);
      Separate(h, l, b);
      Separate(h, b, l);
    }
  }

  // ----- stores at the seam

  /** A store into b, or into the header after it, leaves the other headers right. */
  lemma StoreKeepsEncodedBut(M: Memory, h: Heap, b: nat, x: nat, v: Word)
    requires h.Tiled() && b in h.blocks && EncodedBut(M, h, b)
    requires b <= x < h.Next(b) + HEADER && x < |M|
    ensures EncodedBut(M[x := v], h, b)
  {
    var M' := M[x := v];
    forall y {:trigger HeaderAt(M', h, y)} | y in h.blocks && y != b && y != h.Next(b)
      ensures HeaderAt(M', h, y)
    {
      assert HeaderAt(M, h, y);
      assert h.BlockAt(b);
      Separate(h, b, y);
      Separate(h, y, b);
      if h.Next(b) in h.blocks {
        Separate(h, h.Next(b), y);
        assert h.BlockAt(y) && h.BlockAt(h.Next(b));
      }
    }
  }

  /** The header stores that cut a down to n: the rest, from b to m, is a free block, and m knows it. */
  function CutStores(M: Memory, a: nat, m: nat, n: nat, v: Word): Memory
    requires a + HEADER + n + HEADER <= m && m + HEADER <= |M| && m < SIZE_LIMIT
  {
    var b := a + HEADER + n;
    M[b + SIZE := m - b - HEADER + 1][m := b][m + SIZE := SetPrev(M[m + SIZE])][a + SIZE := v]
  }

  /** What must be known of block a before it is cut. */
  ghost predicate Cuttable(M: Memory, g: Heap, a: nat, n: nat) {
    && g.Tiled() && g.end + HEADER <= SIZE_LIMIT && g.IsLive(a) && EncodedBut(M, g, a)
    && n >= MIN_BLOCK && n % 8 == 0 && n + WHOLE_HEADER <= g.blocks[a].size
    && g.Next(a) <= g.end && g.Next(a) in g.blocks && a + HEADER + n !in g.blocks
    && (g.PrevFree(a) ==> M[a] == g.blocks[a].prev)
    && !g.IsFree(g.Next(a)) && ClearPrev(M[g.Next(a) + SIZE]) == g.blocks[g.Next(a)].size
  }

  lemma CutKeepsOthers(M: Memory, g: Heap, a: nat, n: nat, v: Word)
    requires Cuttable(M, g, a, n)
    ensures EncodedBut(CutStores(M, a, g.Next(a), n, v), g, a)
  {
    var b, m := a + HEADER + n, g.Next(a);
    var t: Word, w := m - b - HEADER + 1, SetPrev(M[m + SIZE]);
    StoreKeepsEncodedBut(M, g, a, b + SIZE, t);
    StoreKeepsEncodedBut(M[b + SIZE := t], g, a, m, b);
    StoreKeepsEncodedBut(M[b + SIZE := t][m := b], g, a, m + SIZE, w);
    StoreKeepsEncodedBut(M[b + SIZE := t][m := b][m + SIZE := w], g, a, a + SIZE, v);
  }

  lemma CutEncoded(M: Memory, g: Heap, a: nat, n: nat, v: Word)
    requires Cuttable(M, g, a, n)
    requires v == n + if g.PrevFree(a) then 2 else 0
    ensures Encoded(CutStores(M, a, g.Next(a), n, v), g.Split(a, n))
  {
    assert g.BlockAt(a) && g.BlockAt(g.Next(a));
    CutKeepsOthers(M, g, a, n, v);
    var M' := CutStores(M, a, g.Next(a), n, v);
    CutHeaders(M, g, a, n, v);
    SplitEncoded(M', g, a, n);
  }

  lemma CutHeaders(M: Memory, g: Heap, a: nat, n: nat, v: Word)
    requires Cuttable(M, g, a, n)
    requires v == n + if g.PrevFree(a) then 2 else 0
    ensures var M', g' := CutStores(M, a, g.Next(a), n, v), g.Split(a, n);
      HeaderAt(M', g', a) && HeaderAt(M', g', a + HEADER + n) && HeaderAt(M', g', g.Next(a))
  {
    assert g.BlockAt(a) && g.BlockAt(g.Next(a));
  }

  // ----- what may be written

  /** x belongs to a header, or to the links of a free block. */
  predicate Meta(h: Heap, x: int) {
    x in h.blocks || x - SIZE in h.blocks || h.IsFree(x - PREV) || h.IsFree(x - NEXT)
  }

  ghost predicate OnlyMetaChanges(M: Memory, M': Memory, h: Heap, h': Heap) {
    && |M'| == |M|
    && forall x | 0 <= x < |M| :: M'[x] == M[x] || Meta(h, x) || Meta(h', x)
  }

  lemma PayloadIsNotMeta(h: Heap, u: nat, x: nat)
    requires h.Tiled() && h.IsLive(u) && u + HEADER <= x < h.Next(u)
    ensures !Meta(h, x)
  {
    forall y | y in h.blocks && (y == x || y + SIZE == x || (h.IsFree(y) && (y + PREV == x || y + NEXT == x)))
      ensures false
    {
      assert h.BlockAt(u) && h.BlockAt(y) && h.BlockAt(h.end);
      Separate(h, u, y);
      Separate(h, y, u);
    }
  }

  ghost predicate PayloadKept(M: Memory, M': Memory, h: Heap, u: nat)
    requires u in h.blocks
  {
    && h.Next(u) <= |M| && |M'| == |M|
    && forall x | u + HEADER <= x < h.Next(u) :: M'[x] == M[x]
  }

  /** The payloads of all live blocks except a are untouched. */
  ghost predicate PayloadsKept(M: Memory, M': Memory, h: Heap, a: nat) {
    forall u | h.IsLive(u) && u != a :: PayloadKept(M, M', h, u)
  }

  lemma MetaKeepsPayloads(M: Memory, M': Memory, h: Heap, h': Heap, a: nat)
    requires HeapValid(h) && h'.Tiled() && |M| == h.end + HEADER
    requires OnlyMetaChanges(M, M', h, h') && OthersKept(h, h', a)
    ensures PayloadsKept(M, M', h, a)
  {
    forall u | h.IsLive(u) && u != a
      ensures PayloadKept(M, M', h, u)
    {
      BlockBounds(h, u);
      forall x | u + HEADER <= x < h.Next(u)
        ensures M'[x] == M[x]
      {
        PayloadIsNotMeta(h, u, x);
        PayloadIsNotMeta(h', u, x);
      }
    }
  }

  // ----- inserting the rest of a cut

  /** A is the pool before the rest is inserted, B after it, and both then get the new size word of a. */
  lemma CutLinks(A: Memory, B: Memory, g: Heap, L: Listing, a: nat, v: Word)
    requires g.Tiled() && g.end + HEADER == |A| && g.IsLive(a) && Listed(g, L)
    requires OnlyLinksChange(A, B, L)
    requires a + HEADER <= |A| && Encoded(A[a + SIZE := v], g)
    ensures Encoded(B[a + SIZE := v], g) && !LinkWord(L, a + SIZE)
    ensures B[a + SIZE] == A[a + SIZE]
  {
    ListedWithin(g, L);
    assert g.BlockAt(a) && ListedAt(g, L, a);
    InsideIsNoLink(g, L, a, a + SIZE);
    assert OnlyLinksChange(A[a + SIZE := v], B[a + SIZE := v], L);
    LinksKeepEncoded(A[a + SIZE := v], B[a + SIZE := v], L, g);
  }

  /** Listing the rest of a cut lists the new heap. */
  lemma CutListed(g: Heap, L: Listing, a: nat, n: nat, rest: Word, stamp: nat)
    requires g.Tiled() && g.end + HEADER <= SIZE_LIMIT && g.IsLive(a) && Listed(g, L)
    requires n >= MIN_BLOCK && n % 8 == 0 && n + WHOLE_HEADER <= g.blocks[a].size
    requires g.Next(a) in g.blocks && rest == g.blocks[a].size - n - HEADER && rest < SIZE_LIMIT
    ensures Listed(g.Split(a, n), L[a + HEADER + n := Entry(ClassOf(rest), stamp)])
  {
    hide ClassOf;
    SplitFresh(g, a, n);
    assert a != g.Next(a);
    hide Heap.Tiled;
    var g', L' := g.Split(a, n), L[a + HEADER + n := Entry(ClassOf(rest), stamp)];
    forall x: int
      ensures ListedAt(g', L', x)
    {
      assert ListedAt(g, L, x);
    }
  }

  function BeforeInsert(M: Memory, b: nat, m: nat, rest: Word): Memory
    requires b + HEADER <= m && m + HEADER <= |M| && b < SIZE_LIMIT && rest < SIZE_LIMIT
  {
    M[b + SIZE := rest + 1][m := b][m + SIZE := SetPrev(M[m + SIZE])]
  }

  /** All that the stores of a cut rely on; g is the heap they lead to. */
  ghost predicate CutReady(M: Memory, g: Heap, L: Listing, stamp: nat, a: nat, b: nat, m: nat, v: Word) {
    && |M| == g.end + HEADER <= SIZE_LIMIT && g.Tiled() && g.IsLive(a)
    && 0 < a && a + HEADER <= b && b + WHOLE_HEADER <= m && m + HEADER <= |M|
    && a in g.blocks && b in g.blocks && m in g.blocks
    && !LinkWord(L, b + SIZE) && !LinkWord(L, m) && !LinkWord(L, m + SIZE)
    && b !in L && InPool(M, b)
    && var rest := m - b - HEADER;
    && Listed(g, L[b := Entry(ClassOf(rest), stamp)])
    && Encoded(BeforeInsert(M, b, m, rest)[a + SIZE := v], g)
  }

  lemma CutParts(M: Memory, g: Heap, L: Listing, stamp: nat, a: nat, b: nat, m: nat, v: Word)
    requires CutReady(M, g, L, stamp, a, b, m, v)
    ensures |M| == g.end + HEADER <= SIZE_LIMIT && g.Tiled() && g.IsLive(a) && a in g.blocks && b in g.blocks && m in g.blocks
    ensures 0 < a && a + HEADER <= b && b + WHOLE_HEADER <= m && m + HEADER <= |M|
    ensures !LinkWord(L, b + SIZE) && !LinkWord(L, m) && !LinkWord(L, m + SIZE) && b !in L && InPool(M, b)
    ensures var rest := m - b - HEADER;
      && MappingInsert(rest).InTable() && MappingInsert(rest).Flat() == ClassOf(rest)
      && Listed(g, L[b := Entry(ClassOf(rest), stamp)]) && Encoded(BeforeInsert(M, b, m, rest)[a + SIZE := v], g)
  {
    ClassOfIs(m - b - HEADER);
    hide Listed, Encoded, MappingInsert, ClassOf, LinkWord;
  }

  lemma CutIsReady(M: Memory, g: Heap, L: Listing, a: nat, n: nat, stamp: nat, v: Word)
    requires Cuttable(M, g, a, n) && Listed(g, L)
    requires v == n + if g.PrevFree(a) then 2 else 0
    ensures CutReady(M, g.Split(a, n), L, stamp, a, a + HEADER + n, g.Next(a), v)
  {
    var b, m := a + HEADER + n, g.Next(a);
    assert g.BlockAt(a) && g.BlockAt(m);
    CutFacts(M, g, L, a, n);
    CutHeap(M, g, L, a, n, stamp);
    CutEncoded(M, g, a, n, v);
    hide Listed, Encoded, ClassOf;
    assert CutStores(M, a, m, n, v) == BeforeInsert(M, b, m, m - b - HEADER)[a + SIZE := v];
  }

  lemma CutMeta(M: Memory, A: Memory, B: Memory, f: Heap, g: Heap, L: Listing, a: nat, b: nat, m: nat, v: Word)
    requires b + HEADER <= m && m + HEADER <= |M| && m < SIZE_LIMIT && a in g.blocks && b in g.blocks && m in g.blocks
    requires A == BeforeInsert(M, b, m, m - b - HEADER) && OnlyLinksChange(A, B, L) && Listed(g, L)
    requires a + HEADER <= |M|
    ensures OnlyMetaChanges(M, B[a + SIZE := v], f, g)
  {
    forall x | 0 <= x < |M|
      ensures B[a + SIZE := v][x] == M[x] || Meta(g, x)
    {
      assert ListedAt(g, L, x - PREV) && ListedAt(g, L, x - NEXT);
    }
  }

  lemma CutFacts(M: Memory, g: Heap, L: Listing, a: nat, n: nat)
    requires Cuttable(M, g, a, n) && Listed(g, L)
    ensures var b, m := a + HEADER + n, g.Next(a);
      && 0 < a && a < b && b + WHOLE_HEADER <= m <= g.end && m + HEADER <= |M| && m < SIZE_LIMIT
      && !LinkWord(L, b + SIZE) && !LinkWord(L, m) && !LinkWord(L, m + SIZE)
      && b !in L && InPool(M, b)
  {
    var b, m := a + HEADER + n, g.Next(a);
    assert g.BlockAt(a) && g.BlockAt(m);
    ListedWithin(g, L);
    assert ListedAt(g, L, a) && ListedAt(g, L, b);
    InsideIsNoLink(g, L, a, b + SIZE);
    InsideIsNoLink(g, L, a, m);
    InsideIsNoLink(g, L, a, m + SIZE);
  }

  lemma CutHeap(M: Memory, g: Heap, L: Listing, a: nat, n: nat, stamp: nat)
    requires Cuttable(M, g, a, n) && Listed(g, L)
    ensures var b, m := a + HEADER + n, g.Next(a);
      && b + WHOLE_HEADER <= m && m < SIZE_LIMIT
      && g.Split(a, n).Tiled() && g.Split(a, n).IsLive(a)
      && var rest := m - b - HEADER;
      && MappingInsert(rest).InTable() && MappingInsert(rest).Flat() == ClassOf(rest)
      && Listed(g.Split(a, n), L[b := Entry(ClassOf(rest), stamp)])
  {
    var b, m := a + HEADER + n, g.Next(a);
    hide MappingInsert, ClassOf;
    SplitTiled(g, a, n);
    ClassOfIs(m - b - HEADER);
    CutListed(g, L, a, n, m - b - HEADER, stamp);
  }

  // ----- malloc_ex

  /** size rounded up, in 32 bits, to the alignment, and to a block that can hold the links. */
  function RoundUp(size: Word): Word {
    if size < MIN_BLOCK then MIN_BLOCK else (size + 7) % 0x1_0000_0000 / 8 * 8
  }

  /** b is a free block of at least n bytes, and no free block that large lies in an earlier class. */
  ghost predicate BestClass(h: Heap, b: nat, n: nat) {
    && h.IsFree(b) && n <= h.blocks[b].size < SIZE_LIMIT
    && forall a | h.IsFree(a) && n <= h.blocks[a].size < SIZE_LIMIT :: ClassOf(h.blocks[b].size) <= ClassOf(h.blocks[a].size)
  }

  ghost predicate NoneFits(h: Heap, n: nat) {
    forall a | h.IsFree(a) :: h.blocks[a].size < n
  }

  /** malloc_ex has put the best free block b to use, cut down to n, and disturbed no live payload. */
  ghost predicate Allocated(M: Memory, M': Memory, h: Heap, h': Heap, b: nat, n: nat) {
    && h.Tiled() && n >= MIN_BLOCK && n % 8 == 0
    && BestClass(h, b, n) && h' == Take(h, b, n) && PayloadsKept(M, M', h, b)
  }

  /** Nothing is listed from class c on, so no free block reaches the least size of class c. */
  lemma EmptyMeansNoneFits(M: Memory, heads: seq<Word>, h: Heap, L: Listing, clock: nat, c: nat)
    requires HeapValid(h) && Linked(M, heads, L, clock) && Listed(h, L)
    requires c <= CLASSES && EmptyBetween(heads, c, CLASSES)
    ensures NoneFits(h, ClassMin(c))
  {
    forall a | h.IsFree(a)
      ensures h.blocks[a].size < ClassMin(c)
    {
      assert ListedAt(h, L, a);
      ReachedFromHead(M, heads, L, clock, a);
      ClassOrder(h.blocks[a].size, c);
    }
  }

  /** The head of the first non-empty list from class c on is a block of the best class. */
  lemma FirstHeadIsBest(M: Memory, heads: seq<Word>, h: Heap, L: Listing, clock: nat, c: nat, k: nat)
    requires HeapValid(h) && Linked(M, heads, L, clock) && Listed(h, L)
    requires c <= k < CLASSES && EmptyBetween(heads, c, k) && heads[k] != 0
    ensures heads[k] in L && BestClass(h, heads[k], ClassMin(c))
  {
    hide ClassMin;
    var b := heads[k];
    assert HeadAt(M, L, k, b);
    assert ListedAt(h, L, b);
    ClassOrder(h.blocks[b].size, c);
    forall a | h.IsFree(a) && ClassMin(c) <= h.blocks[a].size < SIZE_LIMIT
      ensures k <= ClassOf(h.blocks[a].size)
    {
      assert ListedAt(h, L, a);
      ReachedFromHead(M, heads, L, clock, a);
      ClassOrder(h.blocks[a].size, c);
    }
  }

  lemma TakeListed(h: Heap, L: Listing, b: nat)
    requires h.Tiled() && Listed(h, L) && b in L
    ensures b in h.blocks && Listed(h.Mark(b, false), L - {b})
  {
    assert ListedAt(h, L, b);
    var g, L' := h.Mark(b, false), L - {b};
    forall x: int
      ensures ListedAt(g, L', x)
    {
      assert ListedAt(h, L, x);
    }
  }

  /** What the headers say around a free block b, seen from the heap where b is already in use. */
  lemma TakeFacts(M: Memory, h: Heap, b: nat)
    requires HeapValid(h) && Encoded(M, h) && h.IsFree(b)
    ensures var g, m := h.Mark(b, false), h.Next(b);
      && b != h.end && 0 < b && g.Tiled() && EncodedBut(M, g, b)
      && m <= h.end && m in h.blocks && !h.IsFree(m) && m + HEADER <= |M|
      && M[b + SIZE] == h.blocks[b].size + 1 && !h.PrevFree(b) && !g.PrevFree(b)
      && M[m + SIZE] == h.blocks[m].size + 2
      && h.blocks[b].size % 8 == 0 && h.blocks[m].size % 8 == 0
  {
    var m := h.Next(b);
    assert h.BlockAt(h.end) && h.BlockAt(b) && h.BlockAt(m);
    assert HeaderAt(M, h, b) && HeaderAt(M, h, m);
    NoTwoFree(h, b);
    FreeAfterUsed(h, b);
    MarkTiled(h, b, false);
    MarkEncoded(M, h, b, false);
  }

  lemma TakeCuttable(M: Memory, h: Heap, b: nat, n: nat)
    requires HeapValid(h) && Encoded(M, h) && h.IsFree(b)
    requires n >= MIN_BLOCK && n % 8 == 0 && n + WHOLE_HEADER <= h.blocks[b].size
    ensures Cuttable(M, h.Mark(b, false), b, n)
  {
    TakeFacts(M, h, b);
    SplitFresh(h, b, n);
    var g, m := h.Mark(b, false), h.Next(b);
    assert g.IsLive(b) && g.Next(b) == m && !g.IsFree(m) && b + HEADER + n !in g.blocks;
    assert g.blocks[b].size == h.blocks[b].size && g.blocks[m].size == h.blocks[m].size;
    TagParts(M[m + SIZE], h.blocks[m].size, false, true);
    hide Heap.Tiled, Heap.Coalesced, Encoded, EncodedBut, Heap.Mark, ClearPrev;
  }

  lemma TakeWholeEncoded(M: Memory, h: Heap, b: nat)
    requires HeapValid(h) && Encoded(M, h) && h.IsFree(b)
    ensures var m := h.Next(b);
      && m + HEADER <= |M| && b + HEADER <= |M|
      && Encoded(M[m + SIZE := ClearPrev(M[m + SIZE])][b + SIZE := ClearFree(M[b + SIZE])], h.Mark(b, false))
  {
    var g, m := h.Mark(b, false), h.Next(b);
    TakeFacts(M, h, b);
    TagParts(M[m + SIZE], h.blocks[m].size, false, true);
    TagParts(M[b + SIZE], h.blocks[b].size, true, false);
    var v, w := ClearPrev(M[m + SIZE]), ClearFree(M[b + SIZE]);
    StoreKeepsEncodedBut(M, g, b, m + SIZE, v);
    StoreKeepsEncodedBut(M[m + SIZE := v], g, b, b + SIZE, w);
    assert g.BlockAt(b) && g.BlockAt(m);
    hide ClearPrev, ClearFree, Heap.Tiled, Heap.Coalesced;
    WholeEncoded(M[m + SIZE := v][b + SIZE := w], g, b);
  }

  lemma TakeWhole(M: Memory, h: Heap, L: Listing, b: nat)
    requires HeapValid(h) && Encoded(M, h) && Listed(h, L) && b in L && h.IsFree(b)
    ensures var m := h.Next(b);
      && m + HEADER <= |M| && b + HEADER <= |M| && !LinkWord(L - {b}, m + SIZE) && !LinkWord(L - {b}, b + SIZE)
      && Encoded(M[m + SIZE := ClearPrev(M[m + SIZE])][b + SIZE := ClearFree(M[b + SIZE])], h.Mark(b, false))
  {
    var g, m := h.Mark(b, false), h.Next(b);
    TakeWholeEncoded(M, h, b);
    TakeFacts(M, h, b);
    TakeListed(h, L, b);
    ListedWithin(g, L - {b});
    InsideIsNoLink(g, L - {b}, b, m + SIZE);
    InsideIsNoLink(g, L - {b}, b, b + SIZE);
  }

  /** Taking b off its list, and what that leaves to be done. */
  lemma TakeExtracted(M0: Memory, M: Memory, h: Heap, L: Listing, b: nat)
    requires HeapValid(h) && Encoded(M0, h) && Listed(h, L) && b in L && OnlyLinksChange(M0, M, L)
    ensures h.IsFree(b) && Encoded(M, h) && Listed(h.Mark(b, false), L - {b})
    ensures forall f :: OnlyMetaChanges(M0, M, h, f)
  {
    assert ListedAt(h, L, b);
    ListedWithin(h, L);
    LinksKeepEncoded(M0, M, L, h);
    TakeListed(h, L, b);
    forall x | 0 <= x < |M0|
      ensures M[x] == M0[x] || Meta(h, x)
    {
      assert ListedAt(h, L, x - PREV) && ListedAt(h, L, x - NEXT);
    }
  }

  lemma MarkedMeta(h: Heap, b: nat, x: int)
    requires h.IsFree(b) && Meta(h.Mark(b, false), x)
    ensures Meta(h, x)
  {
  }

  lemma TakeDone(M0: Memory, M1: Memory, M2: Memory, h: Heap, b: nat, n: nat)
    requires HeapValid(h) && h.IsFree(b) && MIN_BLOCK <= n <= h.blocks[b].size && n % 8 == 0
    requires |M0| == h.end + HEADER
    requires OnlyMetaChanges(M0, M1, h, Take(h, b, n)) && OnlyMetaChanges(M1, M2, h.Mark(b, false), Take(h, b, n))
    ensures HeapValid(Take(h, b, n))
    ensures PayloadsKept(M0, M2, h, b)
  {
    var h' := Take(h, b, n);
    TakeLive(h, b, n);
    TakeCoalesced(h, b, n);
    hide Take, Meta, Heap.Mark;
    forall x | 0 <= x < |M0|
      ensures M2[x] == M0[x] || Meta(h, x) || Meta(h', x)
    {
      if Meta(h.Mark(b, false), x) {
        MarkedMeta(h, b, x);
      }
    }
    MetaKeepsPayloads(M0, M2, h, h', b);
  }

  // ----- free_ex

  /** The free lists hold the free blocks except a. */
  ghost predicate ListedBut(g: Heap, L: Listing, a: nat) {
    && a !in L
    && forall x: int {:trigger ListedAt(g, L, x)} | x != a :: ListedAt(g, L, x)
  }

  /** The header of m, but for what it says of its predecessor. */
  ghost predicate LooseHeaderAt(M: Memory, g: Heap, m: nat)
    requires m in g.blocks
  {
    m + HEADER <= |M| && ClearPrev(M[m + SIZE]) == g.blocks[m].size + if g.blocks[m].free then 1 else 0
  }

  /** a is free and has its final tag, but is on no list, and the block after it does not know. */
  ghost predicate Pending(M: Memory, g: Heap, a: nat) {
    && g.Tiled() && g.end + HEADER <= SIZE_LIMIT && g.IsFree(a)
    && EncodedBut(M, g, a) && HeaderAt(M, g, a)
    && g.Next(a) in g.blocks && LooseHeaderAt(M, g, g.Next(a))
  }

  lemma PendingTags(M: Memory, g: Heap, a: nat)
    requires Pending(M, g, a)
    ensures SizeOf(M[a + SIZE]) == g.blocks[a].size && (PrevBit(M[a + SIZE]) <==> g.PrevFree(a))
    ensures FreeBit(M[g.Next(a) + SIZE]) <==> g.IsFree(g.Next(a))
    ensures SizeOf(M[g.Next(a) + SIZE]) == g.blocks[g.Next(a)].size
  {
    var m := g.Next(a);
    assert g.BlockAt(a) && g.BlockAt(m);
    TagParts(M[a + SIZE], g.blocks[a].size, true, g.PrevFree(a));
    TagParts(M[m + SIZE], g.blocks[m].size, g.blocks[m].free, PrevBit(M[m + SIZE]));
  }

  lemma PendingBounds(M: Memory, g: Heap, L: Listing, a: nat)
    requires Pending(M, g, a) && ListedBut(g, L, a)
    ensures 0 < a && a != g.end && a % 8 == 0 && a + WHOLE_HEADER <= g.Next(a) <= g.end && |M| == g.end + HEADER
    ensures g.blocks[a].size % 8 == 0 && g.blocks[a].size < SIZE_LIMIT && g.IsFree(a) && a !in L && InPool(M, a)
    ensures SizeOf(M[a + SIZE]) == g.blocks[a].size && (PrevBit(M[a + SIZE]) <==> g.PrevFree(a))
    ensures FreeBit(M[g.Next(a) + SIZE]) <==> g.IsFree(g.Next(a))
    ensures SizeOf(M[g.Next(a) + SIZE]) == g.blocks[g.Next(a)].size
    ensures Within(L, g)
  {
    assert g.BlockAt(a) && g.BlockAt(g.end) && g.BlockAt(g.Next(a));
    PendingTags(M, g, a);
    hide SizeOf, PrevBit, FreeBit, ClearPrev;
    forall x | x in L
      ensures x in g.blocks && x != g.end
    {
      assert ListedAt(g, L, x);
    }
  }

  lemma LinksKeepPending(M: Memory, M': Memory, L: Listing, g: Heap, a: nat)
    requires Pending(M, g, a) && Within(L, g) && OnlyLinksChange(M, M', L)
    ensures Pending(M', g, a)
  {
    LinksKeepEncodedBut(M, M', L, g, a);
    LinksKeepHeader(M, M', L, g, a);
    LinksKeepHeader(M, M', L, g, g.Next(a));
  }

  lemma LinksAreMeta(M: Memory, M': Memory, L: Listing, g: Heap)
    requires OnlyLinksChange(M, M', L) && (forall l | l in L :: g.IsFree(l))
    ensures OnlyMetaChanges(M, M', g, g)
  {
  }

  /** free_ex marks the live block a. */
  lemma ReleaseStarts(M: Memory, h: Heap, L: Listing, a: nat)
    requires HeapValid(h) && Encoded(M, h) && Listed(h, L) && h.IsLive(a)
    ensures 0 < a && a + WHOLE_HEADER < |M| && a !in L && h.Mark(a, true).Tiled()
    ensures !LinkWord(L, a + SIZE) && !LinkWord(L, a + PREV) && !LinkWord(L, a + NEXT)
    ensures ListedBut(h.Mark(a, true), L, a)
    ensures Pending(M[a + SIZE := SetFree(M[a + SIZE])][a + PREV := 0][a + NEXT := 0], h.Mark(a, true), a)
  {
    assert h.BlockAt(a) && h.BlockAt(h.Next(a));
    ListedWithin(h, L);
    assert ListedAt(h, L, a);
    InsideIsNoLink(h, L, a, a + SIZE);
    InsideIsNoLink(h, L, a, a + PREV);
    InsideIsNoLink(h, L, a, a + NEXT);
    MarkTiled(h, a, true);
    ReleaseStartsListed(h, L, a);
    ReleaseStartsPending(M, h, a);
  }

  lemma ReleaseStartsListed(h: Heap, L: Listing, a: nat)
    requires Listed(h, L) && h.IsLive(a)
    ensures ListedBut(h.Mark(a, true), L, a)
  {
    assert ListedAt(h, L, a);
    var g := h.Mark(a, true);
    forall x: int | x != a
      ensures ListedAt(g, L, x)
    {
      assert ListedAt(h, L, x);
    }
  }

  lemma ReleaseStartsPending(M: Memory, h: Heap, a: nat)
    requires HeapValid(h) && Encoded(M, h) && h.IsLive(a) && h.Mark(a, true).Tiled() && a + WHOLE_HEADER < |M|
    ensures Pending(M[a + SIZE := SetFree(M[a + SIZE])][a + PREV := 0][a + NEXT := 0], h.Mark(a, true), a)
  {
    var g, v := h.Mark(a, true), SetFree(M[a + SIZE]);
    assert h.BlockAt(a) && h.BlockAt(h.Next(a));
    assert HeaderAt(M, h, a) && HeaderAt(M, h, h.Next(a));
    MarkEncoded(M, h, a, true);
    StoreKeepsEncodedBut(M, g, a, a + SIZE, v);
    StoreKeepsEncodedBut(M[a + SIZE := v], g, a, a + PREV, 0);
    StoreKeepsEncodedBut(M[a + SIZE := v][a + PREV := 0], g, a, a + NEXT, 0);
    TagParts(M[a + SIZE], h.blocks[a].size, false, h.PrevFree(a));
    TagParts(M[h.Next(a) + SIZE], h.blocks[h.Next(a)].size, h.blocks[h.Next(a)].free, false);
  }


  /** A free block other than a is listed, under its class. */
  lemma ListedButHas(g: Heap, L: Listing, a: nat, n: nat)
    requires ListedBut(g, L, a) && g.IsFree(n) && n != a
    ensures n in L && g.blocks[n].size < SIZE_LIMIT && L[n].cls == ClassOf(g.blocks[n].size)
    ensures MappingInsert(g.blocks[n].size).InTable() && MappingInsert(g.blocks[n].size).Flat() == L[n].cls
  {
    assert ListedAt(g, L, n);
    ClassOfIs(g.blocks[n].size);
  }

  lemma MergeMeta(g: Heap, a: nat, x: int)
    requires g.IsFree(a) && g.Next(a) in g.blocks && g.Next(g.Next(a)) in g.blocks
    requires Meta(g.Merge(a), x)
    ensures Meta(g, x)
  {
  }

  lemma MergeListed(g: Heap, L: Listing, a: nat, n: nat, k: nat, l: nat)
    requires a in g.blocks && n == g.Next(a) && n in g.blocks && g.Next(n) in g.blocks && a < n < g.Next(n)
    requires ListedBut(g, L, k) && g.IsFree(a) && g.IsFree(n)
    requires (k == a && l == n) || (k == n && l == a)
    ensures ListedBut(g.Merge(a), L - {l}, a)
  {
    var g', L' := g.Merge(a), L - {l};
    forall x: int | x != a
      ensures ListedAt(g', L', x)
    {
      if x != k {
        assert ListedAt(g, L, x);
      }
    }
  }

  /** a absorbs the free block n after it, now off its list. */
  lemma JoinedPending(M: Memory, g: Heap, L: Listing, a: nat, n: nat, v: Word)
    requires Pending(M, g, a) && ListedBut(g, L, a) && n == g.Next(a) && g.IsFree(n)
    requires v == M[a + SIZE] + g.blocks[n].size + HEADER
    ensures Pending(M[a + SIZE := v], JoinNext(g, a), a)
    ensures ListedBut(JoinNext(g, a), L - {n}, a)
    ensures !LinkWord(L - {n}, a + SIZE)
  {
    PendingBounds(M, g, L, a);
    JoinNextExact(g, a);
    assert g.BlockAt(a) && g.BlockAt(n);
    var m := g.Next(n);
    assert g.BlockAt(m);
    assert HeaderAt(M, g, m);
    TagParts(M[m + SIZE], g.blocks[m].size, g.blocks[m].free, true);
    InsideIsNoLink(g, L, a, a + SIZE);
    MergeListed(g, L, a, n, a, n);
    MergeEncoded(M, g, a);
    StoreKeepsEncodedBut(M, g.Merge(a), a, a + SIZE, v);
  }

  /** The free predecessor p, now off its list, absorbs a. */
  lemma AbsorbedPending(M: Memory, g: Heap, L: Listing, a: nat, p: nat, v: Word)
    requires Pending(M, g, a) && ListedBut(g, L, a) && g.PrevFree(a) && p == g.blocks[a].prev
    requires p + HEADER <= |M| && v == M[p + SIZE] + g.blocks[a].size + HEADER
    ensures p != g.end && g.Next(p) == a && Pending(M[p + SIZE := v], JoinNext(g, p), p)
    ensures ListedBut(JoinNext(g, p), L - {p}, p)
    ensures !LinkWord(L - {p}, p + SIZE)
  {
    PendingBounds(M, g, L, a);
    assert g.BlockAt(a) && g.BlockAt(p);
    var m := g.Next(a);
    assert g.BlockAt(m);
    JoinNextExact(g, p);
    assert HeaderAt(M, g, p);
    InsideIsNoLink(g, L - {p}, p, p + SIZE);
    MergeListed(g, L, p, a, a, p);
    AbsorbedEncoded(M, g, a, p);
    StoreKeepsEncodedBut(M, g.Merge(p), p, p + SIZE, v);
  }

  lemma ListedButLinksAreMeta(M: Memory, M': Memory, g: Heap, L: Listing, a: nat)
    requires ListedBut(g, L, a) && OnlyLinksChange(M, M', L)
    ensures OnlyMetaChanges(M, M', g, g)
  {
    forall l | l in L
      ensures g.IsFree(l)
    {
      assert ListedAt(g, L, l);
    }
    LinksAreMeta(M, M', L, g);
  }

  /** M0 before n leaves its list, M after. */
  lemma JoinStep(M0: Memory, M: Memory, g: Heap, L: Listing, a: nat, n: nat)
    requires Pending(M0, g, a) && ListedBut(g, L, a) && n == g.Next(a) && g.IsFree(n) && OnlyLinksChange(M0, M, L)
    ensures a + HEADER <= |M| && n + HEADER <= |M|
    ensures var v := M[a + SIZE] + SizeOf(M[n + SIZE]) + HEADER;
      && v < SIZE_LIMIT
      && Pending(M[a + SIZE := v], JoinNext(g, a), a) && ListedBut(JoinNext(g, a), L - {n}, a)
      && !LinkWord(L - {n}, a + SIZE) && OnlyMetaChanges(M0, M[a + SIZE := v], g, g)
  {
    PendingBounds(M0, g, L, a);
    LinksKeepPending(M0, M, L, g, a);
    PendingTags(M, g, a);
    assert g.BlockAt(n);
    ListedButLinksAreMeta(M0, M, g, L, a);
    var v := M[a + SIZE] + SizeOf(M[n + SIZE]) + HEADER;
    hide SizeOf, Meta;
    JoinedPending(M, g, L, a, n, v);
    assert Meta(g, a + SIZE) by { HeaderIsMeta(g, a); }
  }

  lemma HeaderIsMeta(g: Heap, a: nat)
    requires a in g.blocks
    ensures Meta(g, a) && Meta(g, a + SIZE)
  {
  }

  lemma AbsorbStep(M0: Memory, M: Memory, g: Heap, L: Listing, a: nat, p: nat)
    requires Pending(M0, g, a) && ListedBut(g, L, a) && g.PrevFree(a) && p == g.blocks[a].prev && OnlyLinksChange(M0, M, L)
    ensures a + HEADER <= |M| && p + HEADER <= |M| && M[a] == p
    ensures var v := M[p + SIZE] + SizeOf(M[a + SIZE]) + HEADER;
      && v < SIZE_LIMIT && p != g.end
      && Pending(M[p + SIZE := v], JoinNext(g, p), p) && ListedBut(JoinNext(g, p), L - {p}, p)
      && !LinkWord(L - {p}, p + SIZE) && OnlyMetaChanges(M0, M[p + SIZE := v], g, g)
  {
    PendingBounds(M0, g, L, a);
    LinksKeepPending(M0, M, L, g, a);
    PendingTags(M, g, a);
    assert g.BlockAt(a) && g.BlockAt(p);
    assert HeaderAt(M, g, p);
    FreeTag(g, p);
    ListedButLinksAreMeta(M0, M, g, L, a);
    var v := M[p + SIZE] + SizeOf(M[a + SIZE]) + HEADER;
    hide SizeOf, Meta;
    AbsorbedPending(M, g, L, a, p, v);
    assert Meta(g, p + SIZE) by { HeaderIsMeta(g, p); }
  }

  lemma FreeTag(g: Heap, p: nat)
    requires p in g.blocks
    ensures Tag(g, p) <= g.blocks[p].size + 3
  {
  }

  lemma NothingChanges(M: Memory, g: Heap)
    ensures OnlyMetaChanges(M, M, g, g)
  {
  }

  /** What the header of a says of a free predecessor. */
  lemma PrevFacts(M: Memory, g: Heap, L: Listing, a: nat)
    requires Pending(M, g, a) && ListedBut(g, L, a) && g.PrevFree(a)
    ensures var p := g.blocks[a].prev;
      && M[a] == p && p in L && p in g.blocks && p != g.end && p + HEADER <= |M| && SizeOf(M[p + SIZE]) == g.blocks[p].size
      && g.blocks[p].size < SIZE_LIMIT
      && MappingInsert(g.blocks[p].size).InTable() && MappingInsert(g.blocks[p].size).Flat() == L[p].cls
  {
    var p := g.blocks[a].prev;
    PendingBounds(M, g, L, a);
    assert g.BlockAt(a) && g.BlockAt(p);
    assert HeaderAt(M, g, p);
    TagParts(M[p + SIZE], g.blocks[p].size, true, g.PrevFree(p));
    ListedButHas(g, L, a, p);
  }

  /** Once a is listed, the block after it is told, and the heap is whole again. */
  lemma ReleaseEnds(M: Memory, g: Heap, L: Listing, a: nat)
    requires Pending(M, g, a) && Listed(g, L)
    ensures var m := g.Next(a);
      && m + HEADER <= |M| && a < SIZE_LIMIT && !LinkWord(L, m) && !LinkWord(L, m + SIZE)
      && Encoded(M[m + SIZE := SetPrev(M[m + SIZE])][m := a], g)
  {
    var m := g.Next(a);
    assert g.BlockAt(a) && g.BlockAt(m) && g.BlockAt(g.end);
    ListedWithin(g, L);
    HeaderIsNoLink(L, g, m);
    var v := SetPrev(M[m + SIZE]);
    TagParts(M[m + SIZE], g.blocks[m].size, g.blocks[m].free, PrevBit(M[m + SIZE]));
    StoreKeepsEncodedBut(M, g, a, m + SIZE, v);
    StoreKeepsEncodedBut(M[m + SIZE := v], g, a, m, a);
    WholeEncoded(M[m + SIZE := v][m := a], g, a);
  }

  lemma ReleaseListed(g: Heap, L: Listing, a: nat, stamp: nat)
    requires ListedBut(g, L, a) && g.IsFree(a) && g.blocks[a].size < SIZE_LIMIT
    ensures Listed(g, L[a := Entry(ClassOf(g.blocks[a].size), stamp)])
  {
    hide ClassOf;
    var L' := L[a := Entry(ClassOf(g.blocks[a].size), stamp)];
    forall x: int
      ensures ListedAt(g, L', x)
    {
      if x != a {
        assert ListedAt(g, L, x);
      }
    }
  }

  lemma JoinNextMeta(g: Heap, a: nat, x: int)
    requires g.Tiled() && a != g.end && g.IsFree(a) && Meta(JoinNext(g, a), x)
    ensures Meta(g, x)
  {
    JoinNextExact(g, a);
    if g.IsFree(g.Next(a)) {
      MergeMeta(g, a, x);
    }
  }

  /** Release, step by step: g0 marks a free, g1 joins its successor, g2 its predecessor. */
  lemma ReleaseSteps(h: Heap, a: nat)
    requires h.Tiled() && h.IsLive(a)
    ensures var g0 := h.Mark(a, true);
      && g0.Tiled() && g0.IsFree(a) && a in g0.blocks && a != g0.end
      && var g1 := JoinNext(g0, a);
      && a in g1.blocks && g1.IsFree(a)
      && var p := g1.blocks[a].prev;
      && (!g1.PrevFree(a) ==> Release(h, a) == g1)
      && (g1.PrevFree(a) ==> g1.IsFree(p) && p != g1.end && Release(h, a) == JoinNext(g1, p))
  {
    MarkTiled(h, a, true);
    assert h.BlockAt(a) && h.BlockAt(h.end);
    JoinNextExact(h.Mark(a, true), a);
    if h.PrevFree(a) {
      ReleasePrev(h, a);
    }
  }

  /** The freed block a takes in its free neighbours. */
  ghost function Absorb(g: Heap, a: nat): Heap
    requires g.Tiled() && g.IsFree(a) && a != g.end
  {
    var g1 := JoinNext(g, a);
    if g1.PrevFree(a) then
      PrevOfTiled(g1, a);
      JoinNext(g1, g1.blocks[a].prev)
    else g1
  }

  lemma PrevOfTiled(g: Heap, a: nat)
    requires g.Tiled() && a in g.blocks && g.PrevFree(a)
    ensures g.blocks[a].prev in g.blocks && g.blocks[a].prev != g.end
  {
    assert g.BlockAt(a) && g.BlockAt(g.end);
  }

  lemma ReleaseIsAbsorb(h: Heap, a: nat)
    requires h.Tiled() && h.IsLive(a)
    ensures var g0 := h.Mark(a, true);
      g0.Tiled() && g0.IsFree(a) && a != g0.end && Release(h, a) == Absorb(g0, a)
  {
    ReleaseSteps(h, a);
  }

  lemma AbsorbMeta(g: Heap, a: nat, x: int)
    requires g.Tiled() && g.IsFree(a) && a != g.end && Meta(Absorb(g, a), x)
    ensures Meta(g, x)
  {
    var g1 := JoinNext(g, a);
    if g1.PrevFree(a) {
      PrevOfTiled(g1, a);
      JoinNextMeta(g1, g1.blocks[a].prev, x);
    }
    JoinNextMeta(g, a, x);
  }

  /** The changes of the stages of Coalesce, together. */
  lemma AbsorbDone(M1: Memory, M2: Memory, M3: Memory, M4: Memory, g: Heap, a: nat)
    requires g.Tiled() && g.IsFree(a) && a != g.end
    requires OnlyMetaChanges(M1, M2, g, g) && OnlyMetaChanges(M2, M3, JoinNext(g, a), JoinNext(g, a))
    requires OnlyMetaChanges(M3, M4, Absorb(g, a), Absorb(g, a))
    ensures OnlyMetaChanges(M1, M4, g, g)
  {
    hide Absorb, Meta, JoinNext;
    forall x | 0 <= x < |M1|
      ensures M4[x] == M1[x] || Meta(g, x)
    {
      if Meta(Absorb(g, a), x) {
        AbsorbMeta(g, a, x);
      } else if Meta(JoinNext(g, a), x) {
        JoinNextMeta(g, a, x);
      }
    }
  }

  lemma ReleaseDone(M0: Memory, M1: Memory, M4: Memory, h: Heap, a: nat)
    requires HeapValid(h) && h.IsLive(a) && |M0| == h.end + HEADER
    requires OnlyMetaChanges(M0, M1, h, h.Mark(a, true)) && OnlyMetaChanges(M1, M4, h.Mark(a, true), h.Mark(a, true))
    ensures HeapValid(Release(h, a)) && PayloadsKept(M0, M4, h, a)
  {
    MarkTiled(h, a, true);
    ReleaseCoalesced(h, a);
    MetaKeepsPayloads(M0, M4, h, h.Mark(a, true), a);
  }

  lemma MarkStoresAreMeta(M: Memory, h: Heap, a: nat, v: Word)
    requires h.IsLive(a) && a + WHOLE_HEADER <= |M|
    ensures OnlyMetaChanges(M, M[a + SIZE := v][a + PREV := 0][a + NEXT := 0], h, h.Mark(a, true))
  {
  }

  lemma InsertedStep(M: Memory, M': Memory, g: Heap, L: Listing, a: nat)
    requires Pending(M, g, a) && Listed(g, L) && OnlyLinksChange(M, M', L)
    ensures a + HEADER <= |M'| && SizeOf(M'[a + SIZE]) == g.blocks[a].size
    ensures var m := g.Next(a);
      && m + HEADER <= |M'| && a < SIZE_LIMIT && !LinkWord(L, m) && !LinkWord(L, m + SIZE)
      && var M2 := M'[m + SIZE := SetPrev(M'[m + SIZE])][m := a];
      && Encoded(M2, g) && OnlyMetaChanges(M, M2, g, g)
  {
    ListedWithin(g, L);
    LinksKeepPending(M, M', L, g, a);
    PendingTags(M', g, a);
    ReleaseEnds(M', g, L, a);
    forall l | l in L
      ensures g.IsFree(l)
    {
      assert ListedAt(g, L, l);
    }
    LinksAreMeta(M, M', L, g);
    var m := g.Next(a);
    hide SizeOf, SetPrev, Meta;
    HeaderIsMeta(g, m);
    assert OnlyMetaChanges(M, M'[m + SIZE := SetPrev(M'[m + SIZE])][m := a], g, g);
  }

  // ----- realloc_ex

  /** Block b is in use and the block after it is not free; only the size in b's header may be out of date. */
  ghost predicate Seam(M: Memory, g: Heap, b: nat) {
    && g.Tiled() && g.end + HEADER <= SIZE_LIMIT && g.IsLive(b) && EncodedBut(M, g, b)
    && b + HEADER <= |M| && PrevState(M[b + SIZE]) == B(g.PrevFree(b), 2) && (g.PrevFree(b) ==> M[b] == g.blocks[b].prev)
    && g.Next(b) in g.blocks && g.Next(b) + HEADER <= |M|
    && !g.IsFree(g.Next(b)) && ClearPrev(M[g.Next(b) + SIZE]) == g.blocks[g.Next(b)].size
  }

  /** What the headers say around a live block. */
  lemma LiveFacts(M: Memory, h: Heap, L: Listing, b: nat)
    requires HeapValid(h) && Encoded(M, h) && Listed(h, L) && h.IsLive(b)
    ensures var n := h.Next(b);
      && 0 < b && n <= h.end && n in h.blocks && |M| == h.end + HEADER && b !in L
      && h.blocks[b].size % 8 == 0 && h.blocks[b].size >= MIN_BLOCK
      && SizeOf(M[b + SIZE]) == h.blocks[b].size && PrevState(M[b + SIZE]) == B(h.PrevFree(b), 2)
      && (h.PrevFree(b) ==> M[b] == h.blocks[b].prev)
      && (FreeBit(M[n + SIZE]) <==> h.IsFree(n)) && SizeOf(M[n + SIZE]) == h.blocks[n].size
      && h.blocks[n].size % 8 == 0
      && M[n + SIZE] == h.blocks[n].size + B(h.IsFree(n), 1)
      && M[b + SIZE] == h.blocks[b].size + B(h.PrevFree(b), 2)
  {
    var n := h.Next(b);
    assert h.BlockAt(b) && h.BlockAt(n);
    assert HeaderAt(M, h, b) && HeaderAt(M, h, n);
    assert ListedAt(h, L, b);
    TagParts(M[b + SIZE], h.blocks[b].size, false, h.PrevFree(b));
    TagParts(M[n + SIZE], h.blocks[n].size, h.IsFree(n), false);
  }

  lemma LiveSeam(M: Memory, h: Heap, L: Listing, b: nat)
    requires HeapValid(h) && Encoded(M, h) && Listed(h, L) && h.IsLive(b) && !h.IsFree(h.Next(b))
    ensures Seam(M, h, b)
  {
    LiveFacts(M, h, L, b);
    var n := h.Next(b);
    TagParts(M[n + SIZE], h.blocks[n].size, false, false);
  }

  lemma SeamCuttable(M: Memory, g: Heap, b: nat, n: nat)
    requires Seam(M, g, b) && n >= MIN_BLOCK && n % 8 == 0 && n + WHOLE_HEADER <= g.blocks[b].size
    ensures Cuttable(M, g, b, n)
  {
    assert g.BlockAt(b);
    SplitFresh(g, b, n);
  }

  /** The free block n after the live block b. */
  lemma FreeNextFacts(M: Memory, h: Heap, L: Listing, b: nat)
    requires HeapValid(h) && Encoded(M, h) && Listed(h, L) && h.IsLive(b) && h.IsFree(h.Next(b))
    ensures var n := h.Next(b);
      && n in L && n != h.end && MIN_BLOCK <= h.blocks[n].size < SIZE_LIMIT && h.blocks[n].size % 8 == 0 && h.Next(n) in h.blocks && h.Next(n) <= h.end
      && MappingInsert(h.blocks[n].size).InTable() && MappingInsert(h.blocks[n].size).Flat() == L[n].cls
      && JoinNext(h, b) == h.Merge(b) && JoinNext(h, b).Next(b) == h.Next(n)
      && JoinNext(h, b).blocks[b].size == h.blocks[b].size + h.blocks[n].size + HEADER
  {
    var n := h.Next(b);
    assert h.BlockAt(b) && h.BlockAt(n) && h.BlockAt(h.end);
    assert ListedAt(h, L, n);
    ClassOfIs(h.blocks[n].size);
    JoinNextExact(h, b);
  }

  lemma JoinedListed(h: Heap, L: Listing, b: nat)
    requires HeapValid(h) && Listed(h, L) && h.IsLive(b) && h.IsFree(h.Next(b))
    ensures Listed(JoinNext(h, b), L - {h.Next(b)})
  {
    JoinNextExact(h, b);
    var g, L' := JoinNext(h, b), L - {h.Next(b)};
    forall x: int
      ensures ListedAt(g, L', x)
    {
      assert ListedAt(h, L, x);
    }
  }

  lemma JoinedSeam(M: Memory, h: Heap, L: Listing, b: nat)
    requires HeapValid(h) && Encoded(M, h) && Listed(h, L) && h.IsLive(b) && h.IsFree(h.Next(b))
    ensures Seam(M, JoinNext(h, b), b)
  {
    LiveFacts(M, h, L, b);
    FreeNextFacts(M, h, L, b);
    var n := h.Next(b);
    var m := h.Next(n);
    assert h.BlockAt(b) && h.BlockAt(n) && h.BlockAt(m);
    NoTwoFree(h, n);
    assert HeaderAt(M, h, m);
    TagParts(M[m + SIZE], h.blocks[m].size, false, true);
    MergeEncoded(M, h, b);
  }

  lemma JoinNextLiveMeta(h: Heap, b: nat, x: int)
    requires h.Tiled() && h.IsLive(b) && Meta(JoinNext(h, b), x)
    ensures Meta(h, x)
  {
    JoinNextExact(h, b);
  }

  /** M0 before the free block after b leaves its list, M after. */
  lemma JoinedStep(M0: Memory, M: Memory, h: Heap, L: Listing, b: nat)
    requires HeapValid(h) && Encoded(M0, h) && Listed(h, L) && h.IsLive(b) && h.IsFree(h.Next(b))
    requires OnlyLinksChange(M0, M, L)
    ensures Seam(M, JoinNext(h, b), b) && Listed(JoinNext(h, b), L - {h.Next(b)})
    ensures OnlyMetaChanges(M0, M, h, h)
    ensures |M| == |M0| == h.end + HEADER && h.Next(b) <= h.end && SameHeader(M0, M, b) && SameHeader(M0, M, h.Next(b))
  {
    assert h.BlockAt(b);
    ListedWithin(h, L);
    LinksKeepHeader(M0, M, L, h, b);
    LinksKeepHeader(M0, M, L, h, h.Next(b));
    LinksKeepEncoded(M0, M, L, h);
    JoinedSeam(M, h, L, b);
    JoinedListed(h, L, b);
    forall l | l in L
      ensures h.IsFree(l)
    {
      assert ListedAt(h, L, l);
    }
    LinksAreMeta(M0, M, L, h);
  }

  /** The stores that make b's growth final. */
  function GrowStores(M: Memory, b: Word, m: nat, v: Word): Memory
    requires b + HEADER <= m && m + HEADER <= |M|
  {
    M[b + SIZE := v][m := b][m + SIZE := ClearPrev(M[m + SIZE])]
  }

  lemma EncodedSeam(M: Memory, g: Heap, b: nat)
    requires g.Tiled() && g.end + HEADER <= SIZE_LIMIT && Encoded(M, g) && g.IsLive(b)
    requires g.Next(b) in g.blocks && !g.IsFree(g.Next(b))
    ensures Seam(M, g, b)
  {
    var m := g.Next(b);
    assert g.BlockAt(b) && g.BlockAt(m);
    assert HeaderAt(M, g, b) && HeaderAt(M, g, m);
    TagParts(M[b + SIZE], g.blocks[b].size, false, g.PrevFree(b));
    TagParts(M[m + SIZE], g.blocks[m].size, false, false);
  }

  lemma GrownEncoded(M: Memory, g: Heap, L: Listing, b: nat, v: Word)
    requires Seam(M, g, b) && Listed(g, L) && v == Tag(g, b)
    ensures 0 < b && b + HEADER <= g.Next(b) <= g.end && b < SIZE_LIMIT && |M| == g.end + HEADER
    ensures !LinkWord(L, b + SIZE) && !LinkWord(L, g.Next(b)) && !LinkWord(L, g.Next(b) + SIZE)
    ensures SizeOf(v) == g.blocks[b].size
    ensures Encoded(GrowStores(M, b, g.Next(b), v), g) && Seam(GrowStores(M, b, g.Next(b), v), g, b)
    ensures OnlyMetaChanges(M, GrowStores(M, b, g.Next(b), v), g, g)
  {
    var m := g.Next(b);
    assert g.BlockAt(b) && g.BlockAt(m);
    ListedWithin(g, L);
    HeaderIsNoLink(L, g, b);
    HeaderIsNoLink(L, g, m);
    var w := ClearPrev(M[m + SIZE]);
    StoreKeepsEncodedBut(M, g, b, b + SIZE, v);
    StoreKeepsEncodedBut(M[b + SIZE := v], g, b, m, b);
    StoreKeepsEncodedBut(M[b + SIZE := v][m := b], g, b, m + SIZE, w);
    WholeEncoded(GrowStores(M, b, m, v), g, b);
    TagParts(v, g.blocks[b].size, false, g.PrevFree(b));
    EncodedSeam(GrowStores(M, b, m, v), g, b);
  }

  /** In place, whatever was written is meta; so the other payloads stay, and b keeps what still fits. */
  ghost predicate PrefixKept(M: Memory, M': Memory, h: Heap, h': Heap, b: nat)
    requires b in h.blocks && b in h'.blocks
  {
    && h.Next(b) <= |M| && |M'| == |M|
    && forall x | b + HEADER <= x < h.Next(b) && x < h'.Next(b) :: M'[x] == M[x]
  }

  lemma MetaKeepsPrefix(M: Memory, M': Memory, h: Heap, h': Heap, b: nat)
    requires HeapValid(h) && h'.Tiled() && |M| == h.end + HEADER && h.IsLive(b) && h'.IsLive(b)
    requires OnlyMetaChanges(M, M', h, h')
    ensures PrefixKept(M, M', h, h', b)
  {
    BlockBounds(h, b);
    forall x | b + HEADER <= x < h.Next(b) && x < h'.Next(b)
      ensures M'[x] == M[x]
    {
      PayloadIsNotMeta(h, b, x);
      PayloadIsNotMeta(h', b, x);
    }
  }

  lemma JoinedTag(h: Heap, b: nat)
    requires HeapValid(h) && h.IsLive(b) && h.IsFree(h.Next(b))
    ensures Tag(JoinNext(h, b), b) == h.blocks[b].size + h.blocks[h.Next(b)].size + HEADER + B(h.PrevFree(b), 2)
  {
    assert h.BlockAt(b);
    JoinNextExact(h, b);
  }

  // ----- client stores

  /** A store into a live payload disturbs neither the headers nor the lists. */
  lemma PayloadStore(M: Memory, heads: seq<Word>, h: Heap, L: Listing, clock: nat, u: nat, x: nat, v: Word)
    requires HeapValid(h) && Encoded(M, h) && Listed(h, L) && Linked(M, heads, L, clock)
    requires h.IsLive(u) && u + HEADER <= x < h.Next(u)
    ensures x < |M| && Encoded(M[x := v], h) && Linked(M[x := v], heads, L, clock)
  {
    PayloadIsNotMeta(h, u, x);
    BlockBounds(h, u);
    assert ListedAt(h, L, x - PREV) && ListedAt(h, L, x - NEXT);
    StoreKeepsLinked(M, heads, L, clock, x, v);
    var M' := M[x := v];
    forall y {:trigger HeaderAt(M', h, y)} | y in h.blocks
      ensures HeaderAt(M', h, y)
    {
      assert HeaderAt(M, h, y);
    }
  }

  // ----- the contract of realloc_ex

  /** The words of the payload of b that a request of size bytes still covers have moved to b'. */
  ghost predicate ContentsMoved(M: Memory, M': Memory, b: nat, old_size: nat, b': nat, size: nat) {
    && b + HEADER + old_size <= |M| && b' + HEADER + size <= |M'|
    && forall i | 0 <= i < old_size && i < size && i % 4 == 0 :: M'[b' + HEADER + i] == M[b + HEADER + i]
  }

  /** b has become b', of at least size bytes, with its contents; every other live block is as it was. */
  ghost predicate Reallocated(M: Memory, M': Memory, h: Heap, h': Heap, b: nat, b': nat, size: nat) {
    && h.IsLive(b) && h'.IsLive(b') && (b' == b || !h.IsLive(b'))
    && size <= h'.blocks[b'].size
    && h'.Live() == h.Live() - {b} + {b'}
    && OthersKept(h, h', b) && PayloadsKept(M, M', h, b)
    && ContentsMoved(M, M', b, h.blocks[b].size, b', size)
  }

  /** realloc_ex can stay in place: the block, or it and the free block after it, are large enough. */
  predicate StaysInPlace(h: Heap, b: nat, n: nat)
    requires b in h.blocks
  {
    n <= h.blocks[b].size || (h.IsFree(h.Next(b)) && n <= h.blocks[b].size + h.blocks[h.Next(b)].size)
  }

  /** The largest size that can be rounded up without wrapping to 0. */
  const MAX_SIZE := 0xFFFF_FFF8

  /** Cut down to n, a block of the best class has taken the place and the contents of b. */
  ghost predicate Moved(M: Memory, M': Memory, h: Heap, h': Heap, b: nat, b': nat, n: nat, size: nat) {
    Reallocated(M, M', h, h', b, b', size) && Moves(h, h', b, b', n) && BestClass(h, b', n)
  }

  /** realloc_ex has returned p for the payload ptr: in place if that is possible, otherwise moved or, failing that too, 0. */
  ghost predicate ReallocDone(M: Memory, M': Memory, h: Heap, h': Heap, ptr: nat, p: nat, size: Word)
    requires ptr >= HEADER && h.IsLive(ptr - HEADER)
  {
    var b, n := ptr - HEADER, RoundUp(size);
    if StaysInPlace(h, b, n) then
      p == ptr && Resizes(h, h', b, n) && Reallocated(M, M', h, h', b, b, size)
    else
      var r := MappingSearch(n).r;
      if NoneFits(h, r) then p == 0 && h' == h && M' == M
      else p >= HEADER && p != ptr && Moved(M, M', h, h', b, p - HEADER, r, size)
  }

  lemma RoundUpExact(size: Word)
    ensures RoundUp(size) % 8 == 0
    ensures size <= MAX_SIZE ==> size <= RoundUp(size) && RoundUp(size) >= MIN_BLOCK
    ensures MIN_BLOCK <= size <= MAX_SIZE ==> RoundUp(size) < size + 8
    ensures size <= MAX_SIZE ==> RoundUp(RoundUp(size)) == RoundUp(size)
    ensures size <= MAX_REQUEST ==> RoundUp(size) <= MAX_REQUEST
    ensures size > MAX_SIZE ==> RoundUp(size) == 0
  {
    if MIN_BLOCK <= size <= MAX_SIZE {
      assert (size + 7) % 0x1_0000_0000 == size + 7;
    }
  }

  lemma RequestCovered(n: Word)
    requires n <= MAX_REQUEST && RoundUp(n) == n
    ensures n % 8 == 0 && n <= MappingSearch(n).r
  {
    RoundUpExact(n);
    SearchExact(n);
  }

  /** The search starts inside the tables with a size that covers the request just when that is at most MAX_REQUEST. */
  lemma RequestServed(size: Word)
    ensures var o := MappingSearch(RoundUp(size)); o.cls.InTable() && size <= o.r <==> size <= MAX_REQUEST
  {
    RoundUpExact(size);
    var r := RoundUp(size);
    hide RoundUp, MappingSearch;
    SearchInTable(r);
    if r > MAX_SUM {
      SearchWraps(r);
    } else {
      SearchExact(r);
    }
    if r == 0 {
      SmallUnpadded(r);
    }
  }

  /** Beyond MAX_REQUEST the search starts one row too far. */
  lemma RequestBeyondTable()
    ensures MappingSearch(RoundUp(0x3F00_0008)) == Rounded(SIZE_LIMIT, SizeClass(REAL_FLI, 0))
  {
    hide MappingSearch;
    SearchOverruns();
  }

  /** Almost 2^32 bytes are searched for as if 0 bytes were enough; the last seven sizes are 0 even before that. */
  lemma RequestWrapped()
    ensures MappingSearch(RoundUp(0xFFFF_FFF0)) == Rounded(0, SizeClass(19, 31)) && SizeClass(19, 31).InTable()
    ensures RoundUp(0xFFFF_FFF9) == 0
  {
    hide MappingSearch;
    SearchWrapped();
  }

  lemma ResizeReallocated(M: Memory, M': Memory, h: Heap, b: nat, n: nat, size: nat)
    requires HeapValid(h) && h.IsLive(b) && size <= n && |M'| == h.end + HEADER
    requires MIN_BLOCK <= n <= JoinNext(h, b).blocks[b].size && n % 8 == 0
    requires PayloadsKept(M, M', h, b)
    requires b in Resize(h, b, n).blocks && PrefixKept(M, M', h, Resize(h, b, n), b)
    ensures Reallocated(M, M', h, Resize(h, b, n), b, b, size)
  {
    ResizeLive(h, b, n);
    var h' := Resize(h, b, n);
    assert b in h'.Live();
    assert h'.BlockAt(b);
  }

  /** M0 to M1 while the next block is taken in, M1 to M2 while the rest is cut off. */
  lemma ResizeDone(M0: Memory, M1: Memory, M2: Memory, h: Heap, b: nat, n: nat, size: nat)
    requires HeapValid(h) && h.IsLive(b) && |M0| == h.end + HEADER && size <= n
    requires MIN_BLOCK <= n <= JoinNext(h, b).blocks[b].size && n % 8 == 0
    requires OnlyMetaChanges(M0, M1, h, h)
    requires OnlyMetaChanges(M1, M2, JoinNext(h, b), Resize(h, b, n))
    ensures HeapValid(Resize(h, b, n)) && Resizes(h, Resize(h, b, n), b, n)
    ensures Reallocated(M0, M2, h, Resize(h, b, n), b, b, size)
  {
    var h' := Resize(h, b, n);
    ResizeCoalesced(h, b, n);
    ResizeLive(h, b, n);
    hide Resize, JoinNext, Meta;
    forall x | 0 <= x < |M0|
      ensures M2[x] == M0[x] || Meta(h, x) || Meta(h', x)
    {
      if Meta(JoinNext(h, b), x) {
        JoinNextLiveMeta(h, b, x);
      }
    }
    MetaKeepsPayloads(M0, M2, h, h', b);
    assert b in h'.Live();
    MetaKeepsPrefix(M0, M2, h, h', b);
    ResizeReallocated(M0, M2, h, b, n, size);
  }

  lemma GrownDone(M0: Memory, M1: Memory, M2: Memory, M3: Memory, h: Heap, b: nat, n: nat, size: nat)
    requires HeapValid(h) && h.IsLive(b) && |M0| == h.end + HEADER && size <= n
    requires MIN_BLOCK <= n <= JoinNext(h, b).blocks[b].size && n % 8 == 0
    requires OnlyMetaChanges(M0, M1, h, h) && OnlyMetaChanges(M1, M2, JoinNext(h, b), JoinNext(h, b))
    requires OnlyMetaChanges(M2, M3, JoinNext(h, b), Resize(h, b, n))
    ensures HeapValid(Resize(h, b, n)) && Resizes(h, Resize(h, b, n), b, n)
    ensures Reallocated(M0, M3, h, Resize(h, b, n), b, b, size)
  {
    hide Meta, Reallocated;
    assert OnlyMetaChanges(M1, M3, JoinNext(h, b), Resize(h, b, n));
    ResizeDone(M0, M1, M3, h, b, n, size);
  }

  /** C is A with len words' worth of the payload of b copied to that of b'. */
  ghost predicate Copied(A: Memory, C: Memory, b: nat, b': nat, len: nat) {
    && b + HEADER + len <= |A| && b' + HEADER + len <= |C| && |C| == |A|
    && (forall i | 0 <= i < len && i % 4 == 0 :: C[b' + HEADER + i] == A[b + HEADER + i])
    && (forall x | 0 <= x < |A| && !(b' + HEADER <= x < b' + HEADER + len) :: C[x] == A[x])
  }

  lemma MovedByCall(M: Memory, A: Memory, h: Heap, h1: Heap, b: nat, b': nat, n: nat)
    requires h.IsLive(b) && Allocated(M, A, h, h1, b', n) && h1.Tiled() && h1.IsLive(b)
    ensures BestClass(h, b', n) && Moves(h, Release(h1, b), b, b', n) && Call(h, Release(h1, b))
  {
    AllocatedTakes(M, A, h, h1, b', n);
    MoveIsCall(h, h1, Release(h1, b), b, b', n);
  }

  lemma NothingCopied(A: Memory, b: nat, b': nat)
    requires b + HEADER <= |A| && b' + HEADER <= |A|
    ensures Copied(A, A, b, b', 0)
  {
  }

  /** One word more, from a payload that the copy does not touch. */
  lemma CopiedMore(A: Memory, C: Memory, b: nat, b': nat, i: nat, len: nat)
    requires Copied(A, C, b, b', i) && i % 4 == 0 && i + 4 <= len && b + HEADER + len <= |A| && b' + HEADER + len <= |A|
    requires b + HEADER + len <= b' + HEADER || b' + HEADER + len <= b + HEADER
    ensures |C| == |A| && C[b + HEADER + i] == A[b + HEADER + i]
    ensures Copied(A, C[b' + HEADER + i := A[b + HEADER + i]], b, b', i + 4)
  {
  }

  /** M to A in malloc_ex, A to C in memcpy, C to D in free_ex. */
  lemma MoveReallocated(M: Memory, A: Memory, C: Memory, D: Memory, h: Heap, h1: Heap, b: nat, b': nat, n: nat, len: nat, size: nat)
    requires HeapValid(h) && h.IsLive(b) && |M| == h.end + HEADER && Allocated(M, A, h, h1, b', n) && HeapValid(h1)
    requires Copied(A, C, b, b', len) && size <= n && len <= n && (len == h.blocks[b].size || size <= len)
    requires h1.IsLive(b) && PayloadsKept(C, D, h1, b)
    ensures Moved(M, D, h, Release(h1, b), b, b', n, size) && Call(h, Release(h1, b))
  {
    MovedByCall(M, A, h, h1, b, b', n);
    TakeLive(h, b', n);
    ReleaseLive(h1, b);
    var h2 := Release(h1, b);
    assert b' in h2.Live() && b != b';
    assert h1.IsLive(b') && PayloadKept(C, D, h1, b');
    BlockBounds(h, b);
    assert PayloadKept(M, A, h, b);
    BlockBounds(h1, b');
    forall u | h.IsLive(u) && u != b
      ensures PayloadKept(M, D, h, u) && h2.IsLive(u) && h2.blocks[u].size == h.blocks[u].size
    {
      assert h1.IsLive(u) && PayloadKept(M, A, h, u) && PayloadKept(C, D, h1, u);
      Separate(h1, u, b');
      Separate(h1, b', u);
    }
    assert h2.Live() == h.Live() - {b} + {b'};
  }

  // ----- init_memory_pool

  const TLSF_T := 3180      // sizeof (tlsf_t)
  const AREA := 3184        // ROUNDUP_SIZE (sizeof (tlsf_t)), where the area starts
  const AREA_INFO := 8      // sizeof (area_info_t)
  const MIN_POOL := TLSF_T + 8 * HEADER

  function RoundDown(n: nat): nat {
    n / 8 * 8
  }

  /** The signature, the head of the areas, the bitmaps and the matrix fill tlsf_t; the area begins at the next multiple of 8. */
  lemma AreaBehindControl()
    ensures TLSF_T == 4 * (3 + REAL_FLI + CLASSES) == 4 * (3 + 24 + 24 * 32)
    ensures TLSF_T <= AREA < TLSF_T + 8 && AREA % 8 == 0 && AREA + HEADER + AREA_INFO == AREA + 16
    ensures HEADER == 8 && SIZE == 4 && PREV == 8 && NEXT == 12 && WHOLE_HEADER == 16
  {
  }

  /** The first byte after the area that process_area lays out, counted from the start of the pool. */
  function AreaEnd(poolSize: nat): nat
    requires poolSize >= MIN_POOL
  {
    AREA + RoundDown(poolSize - TLSF_T)
  }

  /** The area stays inside the pool just when the pool size is 0 to 3 above a multiple of 8. */
  lemma AreaInsidePool(poolSize: nat)
    requires poolSize >= MIN_POOL
    ensures AreaEnd(poolSize) <= poolSize <==> poolSize % 8 < 4
    ensures AreaEnd(poolSize) % 8 == 0 && AreaEnd(poolSize) >= AREA + 64
    ensures poolSize % 8 < 4 ==> AreaEnd(poolSize) == RoundDown(poolSize)
  {
    var q, r := poolSize / 8, poolSize % 8;
    assert poolSize == 8 * q + r;
    if r < 4 {
      assert poolSize - TLSF_T == 8 * (q - 398) + r + 4;
    } else {
      assert poolSize - TLSF_T == 8 * (q - 397) + r - 4;
    }
  }

  /** The sizes process_area works with. */
  lemma AreaLayout(poolSize: nat)
    requires MIN_POOL <= poolSize && poolSize % 8 < 4 && AreaEnd(poolSize) <= SIZE_LIMIT
    ensures var size := RoundDown(poolSize - TLSF_T);
            size % 8 == 0 && size >= 64 && AREA + size == AreaEnd(poolSize) <= poolSize && AREA + size <= SIZE_LIMIT
  {
    AreaInsidePool(poolSize);
  }

  /** A pool whose area would overrun it by four bytes. */
  lemma AreaOverrun()
    ensures AreaEnd(0x1004) == 0x1004 + 4
  {
  }

  /** The stores of process_area on the first block b and the sentinel lb, and of free_ex on b. */
  lemma InitialPending(M: Memory, first: nat, end: nat)
    requires 0 < first && first % 8 == 0 && end % 8 == 0 && first + WHOLE_HEADER <= end && end + HEADER <= SIZE_LIMIT
    requires |M| == end + HEADER && M[first + SIZE] == end - first - HEADER + 1
    requires M[end] == first && M[end + SIZE] == 2
    ensures Pending(M, Initial(first, end), first) && HeapValid(Initial(first, end))
    ensures ListedBut(Initial(first, end), map[], first)
  {
    var g := Initial(first, end);
    assert g.BlockAt(first) && g.BlockAt(end);
    assert forall x, y {:trigger g.Apart(x, y)} | x in g.blocks && y in g.blocks :: g.Apart(x, y);
    assert g.Tiled();
    assert g.Coalesced();
  }

  lemma InitialAbsorbed(first: nat, end: nat)
    requires 0 < first && first % 8 == 0 && end % 8 == 0 && first + WHOLE_HEADER <= end && Initial(first, end).Tiled()
    ensures Absorb(Initial(first, end), first) == Initial(first, end)
  {
    JoinNextExact(Initial(first, end), first);
  }

  lemma NothingLinked(M: Memory, heads: seq<Word>, rows: seq<bv32>)
    requires |heads| == CLASSES && (forall c | 0 <= c < CLASSES :: heads[c] == 0)
    requires |rows| == REAL_FLI && (forall f | 0 <= f < REAL_FLI :: rows[f] == 0)
    ensures Linked(M, heads, map[], 0) && Mapped(heads, rows, 0)
  {
    forall s: nat | s < 32
      ensures !Bit(0, s)
    {
      ZeroHasNoBit(s);
    }
  }

  lemma CopyBounds(h: Heap, d: nat, s: nat, len: nat)
    requires HeapValid(h) && h.IsLive(d) && h.IsLive(s) && d != s
    requires len <= h.blocks[d].size && len <= h.blocks[s].size
    ensures d + HEADER + len <= h.end && s + HEADER + len <= h.end
    ensures d + HEADER + len <= s + HEADER || s + HEADER + len <= d + HEADER
  {
    BlockBounds(h, d);
    BlockBounds(h, s);
    Separate(h, d, s);
    Separate(h, s, d);
  }

  /** Between malloc_ex and memcpy: the old block still has its size, and differs from the new one. */
  lemma MoveStarts(M: Memory, A: Memory, h: Heap, h1: Heap, L1: Listing, b: nat, b': nat, n: nat)
    requires HeapValid(h) && h.IsLive(b) && Allocated(M, A, h, h1, b', n)
    requires HeapValid(h1) && Encoded(A, h1) && Listed(h1, L1)
    ensures b != b' && h1.IsLive(b) && h1.IsLive(b') && h1.blocks[b].size == h.blocks[b].size && n <= h1.blocks[b'].size
    ensures b + HEADER <= |A| && SizeOf(A[b + SIZE]) == h.blocks[b].size && h.blocks[b].size % 8 == 0
  {
    TakeLive(h, b', n);
    assert b in h1.Live() && b' in h1.Live();
    LiveFacts(A, h1, L1, b);
  }

  lemma AllocatedTakes(M: Memory, M': Memory, h: Heap, h': Heap, b: nat, n: nat)
    requires Allocated(M, M', h, h', b, n)
    ensures h.IsFree(b) && Takes(h, h', b, n) && BestClass(h, b, n) && Call(h, h')
  {
    assert Takes(h, h', b, n);
  }

  // ----- what the contracts give a client

  /** Two live payloads share no word, and each lies inside the area at a multiple of 8. */
  lemma LivePayloadsDisjoint(h: Heap, u: nat, v: nat)
    requires HeapValid(h) && h.IsLive(u) && h.IsLive(v) && u != v
    ensures (u + HEADER) % 8 == 0 && h.first + HEADER <= u + HEADER && h.Next(u) <= h.end
    ensures h.Next(u) <= v || h.Next(v) <= u
  {
    BlockBounds(h, u);
    assert h.BlockAt(u);
    Separate(h, u, v);
    Separate(h, v, u);
  }

  /** malloc_ex grants at most 1/32 and 8 bytes more than the rounded request. */
  lemma WasteBound(M: Memory, M': Memory, h: Heap, h': Heap, b: nat, size: Word)
    requires size <= MAX_REQUEST
    requires Allocated(M, M', h, h', b, MappingSearch(RoundUp(size)).r)
    ensures var r := RoundUp(size); h'.IsLive(b) && size <= r <= h'.blocks[b].size <= r + r / 32 + 8
  {
    RoundUpExact(size);
    SearchExact(RoundUp(size));
    var n := MappingSearch(RoundUp(size)).r;
    hide MappingSearch, RoundUp;
    TakeLive(h, b, n);
    assert b in h'.Live();
  }
}
