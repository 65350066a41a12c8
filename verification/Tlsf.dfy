/** The allocator of tlsf.c: malloc_ex, free_ex and realloc_ex over one pool. */
module TlsfAllocator {
  import opened Bits
  import opened SizeClasses
  import opened FreeLists
  import opened Blocks
  import opened Headers
  import opened PoolSteps
  import opened HeapRuns

  class Tlsf {
    /** The pool: a 32-bit word at each byte address that is a multiple of 4. */
    const mem: array<Word>
    /** matrix[fl][sl], the head of each free list or 0, row after row. */
    const matrix: array<Word>
    const slBitmap: array<bv32>
    var flBitmap: bv32

    /** The blocks the pool encodes, the blocks on the free lists, and a clock for the order of insertions. */
    ghost var h: Heap
    ghost var L: Listing
    ghost var clock: nat

    ghost predicate Separated() {
      mem != matrix && mem as object != slBitmap && matrix as object != slBitmap
    }

    ghost predicate Valid()
      reads this, mem, matrix, slBitmap
    {
      && ListsValid() && HeapValid(h) && Listed(h, L) && Encoded(mem[..], h)
    }

    ghost predicate ListsValid()
      reads this, mem, matrix, slBitmap
    {
      && Separated()
      && Linked(mem[..], matrix[..], L, clock)
      && Mapped(matrix[..], slBitmap[..], flBitmap)
    }

    /** init_memory_pool and process_area, on a pool of poolSize bytes that has no signature yet.
        Offsets count from the start of the pool; the tlsf_t at its start is the other fields of this class. */
    constructor (poolSize: Word)
      requires MIN_POOL <= poolSize && poolSize % 8 < 4 && AreaEnd(poolSize) <= SIZE_LIMIT
      ensures Valid() && fresh(mem) && fresh(matrix) && fresh(slBitmap)
      ensures mem.Length == AreaEnd(poolSize) <= poolSize
      ensures h == Initial(AREA + HEADER + AREA_INFO, AreaEnd(poolSize) - HEADER)
    {
      hide Linked, Mapped, Initial, HeapValid, Listed, Encoded, RoundDown, AreaEnd;
      AreaLayout(poolSize);
      var size := RoundDown(poolSize - TLSF_T);
      var b, lb := AREA + HEADER + AREA_INFO, AREA + size - HEADER;
      mem := new Word[AREA + size];
      matrix := new Word[CLASSES](_ => 0);
      slBitmap := new bv32[REAL_FLI](_ => 0);
      flBitmap := 0;
      h, L, clock := Initial(b, lb), map[], 0;
      new;
      ProcessArea(size, b, lb);
      NothingLinked(mem[..], matrix[..], slBitmap[..]);
      FreeFirst(b, lb);
    }

    /** free_ex on the block that process_area has laid out. */
    method FreeFirst(b: Word, lb: Word)
      requires Separated() && b % 8 == 0 && lb % 8 == 0 && 0 < b && b + WHOLE_HEADER <= lb && lb + HEADER <= SIZE_LIMIT
      requires mem.Length == lb + HEADER
      requires mem[..][b + SIZE] == lb - b - HEADER && mem[..][lb] == b && mem[..][lb + SIZE] == 2
      requires L == map[] && clock == 0 && h == Initial(b, lb)
      requires Linked(mem[..], matrix[..], L, clock) && Mapped(matrix[..], slBitmap[..], flBitmap)
      modifies this`flBitmap, this`L, this`clock, mem, matrix, slBitmap
      ensures Valid()
    {
      TagParts(lb - b - HEADER, lb - b - HEADER, false, false);
      hide Linked, Mapped;
      StoreHeader(b + SIZE, SetFree(mem[b + SIZE]));
      StoreHeader(b + PREV, 0);
      StoreHeader(b + NEXT, 0);
      InitialPending(mem[..], b, lb);
      InitialAbsorbed(b, lb);
      hide Pending, ListedBut, Listed, Encoded, Absorb, SetFree;
      Coalesce(b, h);
    }

    /** process_area: the block that holds the area_info_t, the first block b, and the sentinel lb. */
    method ProcessArea(size: Word, b: Word, lb: Word)
      requires Separated() && size % 8 == 0 && size >= 64 && b == AREA + HEADER + AREA_INFO && lb == AREA + size - HEADER
      requires mem.Length == lb + HEADER
      modifies mem
      ensures mem[..][b + SIZE] == lb - b - HEADER && mem[..][lb] == b && mem[..][lb + SIZE] == 2
      ensures matrix[..] == old(matrix[..]) && slBitmap[..] == old(slBitmap[..])
    {
      mem[AREA + SIZE] := AREA_INFO;
      mem[b + SIZE] := RoundDown(size - 3 * HEADER - AREA_INFO);
      mem[b + PREV], mem[b + NEXT] := 0, 0;
      mem[lb] := b;
      mem[lb + SIZE] := 2;
      mem[AREA + HEADER + 4], mem[AREA + HEADER] := 0, lb;
    }

    // ----- single stores

    method Store(a: nat, v: Word)
      requires Separated() && a < mem.Length
      modifies mem
      ensures mem[..] == old(mem[..])[a := v]
      ensures matrix[..] == old(matrix[..]) && slBitmap[..] == old(slBitmap[..])
    {
      mem[a] := v;
    }

    method StoreHead(c: nat, v: Word)
      requires Separated() && c < matrix.Length
      modifies matrix
      ensures matrix[..] == old(matrix[..])[c := v]
      ensures mem[..] == old(mem[..]) && slBitmap[..] == old(slBitmap[..])
    {
      matrix[c] := v;
    }

    method StoreRow(f: nat, w: bv32)
      requires Separated() && f < slBitmap.Length
      modifies slBitmap
      ensures slBitmap[..] == old(slBitmap[..])[f := w]
      ensures mem[..] == old(mem[..]) && matrix[..] == old(matrix[..])
    {
      slBitmap[f] := w;
    }

    /** A store that misses the links. */
    method StoreHeader(x: nat, v: Word)
      requires ListsValid() && x < mem.Length && !LinkWord(L, x)
      modifies mem
      ensures ListsValid() && mem[..] == old(mem[..])[x := v]
    {
      StoreKeepsLinked(mem[..], matrix[..], L, clock, x, v);
      hide Linked, Mapped;
      Store(x, v);
    }

    /** The bitmap part of both extraction macros: list (fl, sl) has become empty. */
    method ClearBits(fl: nat, sl: nat)
      requires Separated() && fl < REAL_FLI && sl < MAX_SLI && slBitmap.Length == REAL_FLI
      modifies this`flBitmap, slBitmap
      ensures slBitmap[..] == ClearedRow(old(slBitmap[..]), fl, sl)
      ensures flBitmap == ClearedTop(slBitmap[..][fl], old(flBitmap), fl)
      ensures mem[..] == old(mem[..]) && matrix[..] == old(matrix[..])
    {
      hide ClearBit;
      StoreRow(fl, ClearBit(sl, slBitmap[fl]));
      if slBitmap[fl] == 0 {
        flBitmap := ClearBit(fl, flBitmap);
      }
    }

    /** EXTRACT_BLOCK_HDR */
    method ExtractHead(b: Word, fl: nat, sl: nat)
      requires ListsValid() && fl < REAL_FLI && sl < MAX_SLI
      requires b != 0 && Head(matrix[..], fl, sl) == b
      modifies this`flBitmap, this`L, mem, matrix, slBitmap
      ensures ListsValid() && b in old(L) && L == old(L) - {b}
      ensures OnlyLinksChange(old(mem[..]), mem[..], old(L))
    {
      hide Linked, Mapped, OnlyLinksChange, ClearedRow, ClearedTop;
      var c := MAX_SLI * fl + sl;
      ghost var M, heads, rows, top := mem[..], matrix[..], slBitmap[..], flBitmap;
      HeadUnlinked(M, heads, rows, top, L, clock, b, fl, sl);
      ghost var n := M[b + NEXT];

      StoreHead(c, mem[b + NEXT]);
      if matrix[c] != 0 {
        Store(matrix[c] + PREV, 0);
        ReplaceMapped(heads, rows, top, fl, sl, n);
      } else {
        ClearBits(fl, sl);
        ClearMapped(heads, rows, top, fl, sl);
      }
      Store(b + PREV, 0);
      Store(b + NEXT, 0);
      L := L - {b};
    }

    /** The part of EXTRACT_BLOCK that makes the neighbours of b point at each other. */
    method JoinNeighboursOf(b: Word)
      requires Separated() && b + WHOLE_HEADER <= mem.Length
      requires var n, p := mem[..][b + NEXT], mem[..][b + PREV];
        && (n != 0 ==> n + WHOLE_HEADER <= mem.Length && n + PREV != b + PREV && n + PREV != b + NEXT)
        && (p != 0 ==> p + WHOLE_HEADER <= mem.Length)
      modifies mem
      ensures mem[..] == JoinNeighbours(old(mem[..]), old(mem[b + NEXT]), old(mem[b + PREV]))
      ensures matrix[..] == old(matrix[..]) && slBitmap[..] == old(slBitmap[..])
    {
      if mem[b + NEXT] != 0 {
        Store(mem[b + NEXT] + PREV, mem[b + PREV]);
      }
      if mem[b + PREV] != 0 {
        Store(mem[b + PREV] + NEXT, mem[b + NEXT]);
      }
    }

    /** EXTRACT_BLOCK */
    method Extract(b: Word, fl: nat, sl: nat)
      requires ListsValid() && fl < REAL_FLI && sl < MAX_SLI
      requires b in L && L[b].cls == MAX_SLI * fl + sl
      modifies this`flBitmap, this`L, mem, matrix, slBitmap
      ensures ListsValid() && L == old(L) - {b}
      ensures OnlyLinksChange(old(mem[..]), mem[..], old(L))
    {
      var c := MAX_SLI * fl + sl;
      ghost var M, heads, rows, top := mem[..], matrix[..], slBitmap[..], flBitmap;
      assert LinkedAt(M, heads, L, b);
      NeighbourBounds(M, heads, L, b);
      ghost var n, p := M[b + NEXT], M[b + PREV];
      UnlinkLinked(M, heads, L, clock, b, n, p);
      UnlinkOnlyLinks(M, heads, L, b, n, p);
      assert |rows| == REAL_FLI;
      hide Linked, Mapped, OnlyLinksChange, ClearedRow, ClearedTop, LinkedAt;

      JoinNeighboursOf(b);
      assert mem[b + NEXT] == n;
      hide JoinNeighbours;
      if matrix[c] == b {
        StoreHead(c, mem[b + NEXT]);
        if matrix[c] == 0 {
          ClearBits(fl, sl);
          ClearMapped(heads, rows, top, fl, sl);
        } else {
          ReplaceMapped(heads, rows, top, fl, sl, n);
        }
      }
      Store(b + PREV, 0);
      Store(b + NEXT, 0);
      L := L - {b};
    }

    /** The part of INSERT_BLOCK that links b in front of the old head. */
    method LinkInFront(b: Word, head: Word)
      requires Separated() && b + WHOLE_HEADER <= mem.Length && (head != 0 ==> head + WHOLE_HEADER <= mem.Length)
      modifies mem
      ensures mem[..] == PushLinks(old(mem[..]), head, b)
      ensures matrix[..] == old(matrix[..]) && slBitmap[..] == old(slBitmap[..])
    {
      Store(b + PREV, 0);
      Store(b + NEXT, head);
      if head != 0 {
        Store(head + PREV, b);
      }
    }

    /** INSERT_BLOCK */
    method Insert(b: Word, fl: nat, sl: nat)
      requires ListsValid() && fl < REAL_FLI && sl < MAX_SLI
      requires b !in L && InPool(mem[..], b)
      modifies this`flBitmap, this`L, this`clock, mem, matrix, slBitmap
      ensures ListsValid() && clock == old(clock) + 1
      ensures L == old(L)[b := Entry(MAX_SLI * fl + sl, old(clock))]
      ensures OnlyLinksChange(old(mem[..]), mem[..], L)
    {
      var c := MAX_SLI * fl + sl;
      ghost var M, heads, rows, top := mem[..], matrix[..], slBitmap[..], flBitmap;
      assert HeadAt(M, L, c, heads[c]);
      PushLinked(M, heads, L, clock, b, c);
      PushOnlyLinks(M, L, clock, b, c, heads[c]);
      SetMapped(heads, rows, top, fl, sl, b);
      assert |rows| == REAL_FLI;
      hide Linked, Mapped, OnlyLinksChange, SetBit, PushLinks;

      LinkInFront(b, matrix[c]);
      StoreHead(c, b);
      StoreRow(fl, SetBit(sl, slBitmap[fl]));
      flBitmap := SetBit(fl, flBitmap);
      L := L[b := Entry(c, clock)];
      clock := clock + 1;
    }

    /** FIND_SUITABLE_BLOCK: the head of the first non-empty list at or after (fl0, sl0), or 0 if there is none. */
    method FindSuitable(fl0: nat, sl0: nat) returns (b: Word, fl: int, sl: int)
      requires ListsValid() && fl0 < REAL_FLI && sl0 < MAX_SLI
      ensures b == 0 ==> EmptyBetween(matrix[..], MAX_SLI * fl0 + sl0, CLASSES)
      ensures b != 0 ==> 0 <= fl < REAL_FLI && 0 <= sl < MAX_SLI && Head(matrix[..], fl, sl) == b
      ensures b != 0 ==> MAX_SLI * fl0 + sl0 <= MAX_SLI * fl + sl
      ensures b != 0 ==> EmptyBetween(matrix[..], MAX_SLI * fl0 + sl0, MAX_SLI * fl + sl)
    {
      ghost var heads, rows, top := matrix[..], slBitmap[..], flBitmap;
      assert |rows| == REAL_FLI && |heads| == CLASSES;
      fl, sl, b := fl0, sl0, 0;
      var tmp := AndFrom(slBitmap[fl], sl);
      if tmp != 0 {
        FoundInRow(heads, rows, top, fl0, sl0);
        hide Mapped, Linked, EmptyBetween, LsBit, AndFrom;
        sl := LsBit(tmp);
        b := matrix[MAX_SLI * fl + sl];
      } else {
        SearchTop(heads, rows, top, fl0, sl0);
        hide Mapped, Linked, EmptyBetween, LsBit, AndFrom;
        fl := LsBit(AndFrom(flBitmap, fl + 1));
        if fl > 0 {
          sl := LsBit(slBitmap[fl]);
          b := matrix[MAX_SLI * fl + sl];
        }
      }
    }

    /** The header of a new free block b that ends at m, and m's record of it.
        malloc_ex does not set m's PREV_FREE flag, which the block it cuts up had set already. */
    method StoreRest(b: Word, m: Word, rest: Word, mark: bool)
      requires mark || (m + SIZE < mem.Length && PrevBit(mem[..][m + SIZE]))
      requires ListsValid() && b + HEADER <= m && m + HEADER <= mem.Length && b < SIZE_LIMIT && rest < SIZE_LIMIT
      requires !LinkWord(L, b + SIZE) && !LinkWord(L, m) && !LinkWord(L, m + SIZE)
      modifies mem
      ensures ListsValid() && mem[..] == BeforeInsert(old(mem[..]), b, m, rest)
    {
      hide Linked, Mapped;
      StoreHeader(b + SIZE, rest + 1);
      StoreHeader(m, b);
      if mark {
        StoreHeader(m + SIZE, SetPrev(mem[m + SIZE]));
      }
    }

    /** Inserts the rest of a cut, from b to m, and gives a its new size word v. */
    method FinishCut(a: Word, b: Word, m: Word, n: Word, mark: bool, ghost f: Heap, ghost g: Heap, ghost v: Word)
      requires ListsValid() && CutReady(mem[..], g, L, clock, a, b, m, v)
      requires v == n + PrevState(mem[..][a + SIZE])
      requires mark || PrevBit(mem[..][m + SIZE])
      modifies this`flBitmap, this`L, this`clock, mem, matrix, slBitmap
      ensures ListsValid() && Listed(g, L) && Encoded(mem[..], g)
      ensures OnlyMetaChanges(old(mem[..]), mem[..], f, g)
    {
      hide Linked, Mapped, Listed, Encoded, OnlyLinksChange, OnlyMetaChanges, ClassOf, MappingInsert;
      hide CutReady, ListsValid, LinkWord, PrevState, PrevBit, Heap.Tiled;
      ghost var M := mem[..];
      CutParts(M, g, L, clock, a, b, m, v);
      var rest := m - b - HEADER;
      var c := MappingInsert(rest);

      StoreRest(b, m, rest, mark);
      ghost var A := mem[..];
      Insert(b, c.fl, c.sl);
      ghost var B := mem[..];
      CutMeta(M, A, B, f, g, L, a, b, m, v);
      CutLinks(A, B, g, L, a, v);
      StoreHeader(a + SIZE, n + PrevState(mem[a + SIZE]));
    }

    /** Cuts the live block a down to n and inserts the rest, which ends at m, as a free block. */
    method Cut(a: Word, m: Word, n: Word, mark: bool, ghost g: Heap)
      requires ListsValid() && Listed(g, L) && Cuttable(mem[..], g, a, n) && m == g.Next(a)
      requires PrevState(mem[..][a + SIZE]) == if g.PrevFree(a) then 2 else 0
      requires mark || (m + SIZE < mem.Length && PrevBit(mem[..][m + SIZE]))
      modifies this`flBitmap, this`L, this`clock, mem, matrix, slBitmap
      ensures ListsValid() && Listed(g.Split(a, n), L) && Encoded(mem[..], g.Split(a, n))
      ensures OnlyMetaChanges(old(mem[..]), mem[..], g, g.Split(a, n))
    {
      ghost var v := n + PrevState(mem[..][a + SIZE]);
      CutIsReady(mem[..], g, L, a, n, clock, v);
      hide Linked, Mapped, Listed, Encoded, OnlyMetaChanges, CutReady;
      FinishCut(a, a + HEADER + n, m, n, mark, g, g.Split(a, n), v);
    }

    /** malloc_ex: a payload of at least size bytes, or 0 if no free block is large enough for the rounded size. */
    method Malloc(size: Word) returns (p: Word)
      requires Valid() && size <= MAX_REQUEST
      modifies this`flBitmap, this`L, this`clock, this`h, mem, matrix, slBitmap
      ensures Valid() && Call(old(h), h)
      ensures var n := MappingSearch(RoundUp(size)).r;
        && (p == 0 <==> NoneFits(old(h), n))
        && (p == 0 ==> h == old(h) && mem[..] == old(mem[..]))
        && (p != 0 ==> p >= HEADER && Allocated(old(mem[..]), mem[..], old(h), h, p - HEADER, n))
    {
      var r := RoundUp(size);
      var o := MappingSearch(r);
      RoundUpExact(size);
      SearchExact(r);
      SearchInTable(r);
      var b, fl, sl := FindSuitable(o.cls.fl, o.cls.sl);
      ghost var c := o.cls.Flat();
      if b == 0 {
        EmptyMeansNoneFits(mem[..], matrix[..], h, L, clock, c);
        return 0;
      }
      FirstHeadIsBest(mem[..], matrix[..], h, L, clock, c, MAX_SLI * fl + sl);
      ghost var M, h0 := mem[..], h;
      p := Carve(b, fl, sl, o.r);
      AllocatedTakes(M, mem[..], h0, h, b, o.r);
    }

    /** The found block b, now off its list, is put to use whole. */
    method TakeAll(b: Word, m: Word, ghost L0: Listing)
      requires ListsValid() && HeapValid(h) && Encoded(mem[..], h) && Listed(h, L0) && b in L0 && L == L0 - {b}
      requires h.IsFree(b) && m == h.Next(b)
      modifies mem
      ensures ListsValid() && Encoded(mem[..], h.Mark(b, false))
      ensures OnlyMetaChanges(old(mem[..]), mem[..], h.Mark(b, false), h.Mark(b, false))
    {
      TakeWhole(mem[..], h, L0, b);
      TakeFacts(mem[..], h, b);
      hide Linked, Mapped, Encoded, Listed, HeapValid;
      StoreHeader(m + SIZE, ClearPrev(mem[m + SIZE]));
      StoreHeader(b + SIZE, ClearFree(mem[b + SIZE]));
    }

    /** The second half of malloc_ex: the found block b leaves its list and is put to use. */
    method Carve(b: Word, fl: nat, sl: nat, n: Word) returns (p: Word)
      requires Valid() && fl < REAL_FLI && sl < MAX_SLI && b != 0 && Head(matrix[..], fl, sl) == b && b in L
      requires h.IsFree(b) && MIN_BLOCK <= n <= h.blocks[b].size && n % 8 == 0
      modifies this`flBitmap, this`L, this`clock, this`h, mem, matrix, slBitmap
      ensures Valid() && p == b + HEADER
      ensures old(h).Tiled() && h == Take(old(h), b, n)
      ensures PayloadsKept(old(mem[..]), mem[..], old(h), b)
    {
      ghost var M0, L0, g := mem[..], L, h.Mark(b, false);
      ExtractHead(b, fl, sl);
      ghost var M1 := mem[..];
      TakeExtracted(M0, M1, h, L0, b);
      TakeFacts(M1, h, b);
      TagParts(M1[b + SIZE], h.blocks[b].size, true, false);
      hide Linked, Mapped, Encoded, Listed, OnlyMetaChanges, OnlyLinksChange, HeapValid, SizeOf;
      var m := b + HEADER + SizeOf(mem[b + SIZE]);
      var rest := SizeOf(mem[b + SIZE]) - n;
      if rest >= WHOLE_HEADER {
        TakeCuttable(M1, h, b, n);
        Cut(b, m, n, false, g);
      } else {
        TakeAll(b, m, L0);
      }
      TakeDone(M0, M1, mem[..], h, b, n);
      h := Take(h, b, n);
      p := b + HEADER;
    }

    // ----- free_ex

    /** The freed block a absorbs a free successor. */
    method AbsorbNext(a: Word, ghost g: Heap)
      requires ListsValid() && Pending(mem[..], g, a) && ListedBut(g, L, a)
      modifies this`flBitmap, this`L, mem, matrix, slBitmap
      ensures ListsValid() && g.Tiled() && a != g.end
      ensures Pending(mem[..], JoinNext(g, a), a) && ListedBut(JoinNext(g, a), L, a)
      ensures OnlyMetaChanges(old(mem[..]), mem[..], g, g)
    {
      ghost var M, L0 := mem[..], L;
      PendingBounds(M, g, L, a);
      JoinNextExact(g, a);
      hide Linked, Mapped, Pending, ListedBut, OnlyMetaChanges, OnlyLinksChange, Heap.Tiled, SizeOf, JoinNext;
      var n := a + HEADER + SizeOf(mem[a + SIZE]);
      if FreeBit(mem[n + SIZE]) {
        ListedButHas(g, L, a, n);
        var c := MappingInsert(SizeOf(mem[n + SIZE]));
        Extract(n, c.fl, c.sl);
        JoinStep(M, mem[..], g, L0, a, n);
        StoreHeader(a + SIZE, mem[a + SIZE] + SizeOf(mem[n + SIZE]) + HEADER);
      } else {
        NothingChanges(M, g);
      }
    }

    /** The freed block a is absorbed by a free predecessor; b is the block that is left. */
    method AbsorbedByPrev(a: Word, ghost g: Heap) returns (b: Word)
      requires ListsValid() && Pending(mem[..], g, a) && ListedBut(g, L, a)
      modifies this`flBitmap, this`L, mem, matrix, slBitmap
      ensures ListsValid() && g.Tiled() && a in g.blocks
      ensures !g.PrevFree(a) ==> b == a && Pending(mem[..], g, a) && ListedBut(g, L, a)
      ensures g.PrevFree(a) ==> b == g.blocks[a].prev && b in g.blocks && b != g.end
      ensures g.PrevFree(a) ==> Pending(mem[..], JoinNext(g, b), b) && ListedBut(JoinNext(g, b), L, b)
      ensures OnlyMetaChanges(old(mem[..]), mem[..], g, g)
    {
      ghost var M, L0 := mem[..], L;
      PendingBounds(M, g, L, a);
      if g.PrevFree(a) {
        PrevFacts(M, g, L, a);
      }
      hide Linked, Mapped, Pending, ListedBut, OnlyMetaChanges, OnlyLinksChange, Heap.Tiled, SizeOf, JoinNext;
      hide PrevBit;
      if PrevBit(mem[a + SIZE]) {
        b := mem[a];
        var c := MappingInsert(SizeOf(mem[b + SIZE]));
        Extract(b, c.fl, c.sl);
        AbsorbStep(M, mem[..], g, L0, a, b);
        StoreHeader(b + SIZE, mem[b + SIZE] + SizeOf(mem[a + SIZE]) + HEADER);
      } else {
        b := a;
        NothingChanges(M, g);
      }
    }

    /** The freed block b, with nothing free beside it, goes on its list, and the block after it is told. */
    method InsertFreed(b: Word, ghost g: Heap)
      requires ListsValid() && Pending(mem[..], g, b) && ListedBut(g, L, b)
      modifies this`flBitmap, this`L, this`clock, mem, matrix, slBitmap
      ensures ListsValid() && Listed(g, L) && Encoded(mem[..], g)
      ensures OnlyMetaChanges(old(mem[..]), mem[..], g, g)
    {
      hide Linked, Mapped, Pending, ListedBut, Listed, Encoded, OnlyMetaChanges, OnlyLinksChange, SizeOf;
      hide ClassOf, MappingInsert;
      ghost var M := mem[..];
      PendingBounds(M, g, L, b);
      ReleaseListed(g, L, b, clock);
      ClassOfIs(g.blocks[b].size);
      var c := MappingInsert(SizeOf(mem[b + SIZE]));
      Insert(b, c.fl, c.sl);
      InsertedStep(M, mem[..], g, L, b);
      var m := b + HEADER + SizeOf(mem[b + SIZE]);
      StoreHeader(m + SIZE, SetPrev(mem[m + SIZE]));
      StoreHeader(m, b);
    }

    /** The marked block a takes in its free neighbours and goes on its list. */
    method Coalesce(a: Word, ghost g: Heap)
      requires ListsValid() && Pending(mem[..], g, a) && ListedBut(g, L, a)
      modifies this`flBitmap, this`L, this`clock, mem, matrix, slBitmap
      ensures ListsValid() && g.Tiled() && g.IsFree(a) && a != g.end
      ensures Listed(Absorb(g, a), L) && Encoded(mem[..], Absorb(g, a))
      ensures OnlyMetaChanges(old(mem[..]), mem[..], g, g)
    {
      ghost var M1 := mem[..];
      PendingBounds(M1, g, L, a);
      hide Linked, Mapped, ListedBut, Listed, Encoded, OnlyMetaChanges, JoinNext;
      AbsorbNext(a, g);
      ghost var M2, g1 := mem[..], JoinNext(g, a);
      var b := AbsorbedByPrev(a, g1);
      ghost var M3 := mem[..];
      InsertFreed(b, Absorb(g, a));
      AbsorbDone(M1, M2, M3, mem[..], g, a);
    }

    /** free_ex: the block of ptr becomes free; a null pointer is ignored. */
    method Free(ptr: Word)
      requires Valid() && (ptr == 0 || (ptr >= HEADER && h.IsLive(ptr - HEADER)))
      modifies this`flBitmap, this`L, this`clock, this`h, mem, matrix, slBitmap
      ensures Valid() && Call(old(h), h)
      ensures ptr == 0 ==> h == old(h) && mem[..] == old(mem[..])
      ensures ptr != 0 ==> old(h).Tiled() && h == Release(old(h), ptr - HEADER)
      ensures ptr != 0 ==> PayloadsKept(old(mem[..]), mem[..], old(h), ptr - HEADER)
    {
      if ptr == 0 {
        return;
      }
      var a := ptr - HEADER;
      ghost var M0, g0 := mem[..], h.Mark(a, true);
      ReleaseStarts(M0, h, L, a);
      ReleaseIsAbsorb(h, a);
      MarkStoresAreMeta(M0, h, a, SetFree(M0[a + SIZE]));
      assert |M0| == h.end + HEADER;
      hide Linked, Mapped, Pending, ListedBut, Listed, Encoded, OnlyMetaChanges, SetFree, Release, Absorb;
      hide HeapValid, LinkWord;
      StoreHeader(a + SIZE, SetFree(mem[a + SIZE]));
      StoreHeader(a + PREV, 0);
      StoreHeader(a + NEXT, 0);
      ghost var M1 := mem[..];
      Coalesce(a, g0);
      ReleaseDone(M0, M1, mem[..], h, a);
      ReleaseIsCall(h, Release(h, a), a);
      h := Release(h, a);
    }

    // ----- realloc_ex

    /** What is left of b beyond n bytes, if it can hold a whole free block, becomes one. */
    method TrimTo(b: Word, m: Word, size: Word, n: Word, ghost g: Heap)
      requires ListsValid() && Listed(g, L) && Seam(mem[..], g, b) && m == g.Next(b) && size == g.blocks[b].size
      requires MIN_BLOCK <= n <= size && n % 8 == 0
      requires size - n < WHOLE_HEADER ==> Encoded(mem[..], g)
      modifies this`flBitmap, this`L, this`clock, mem, matrix, slBitmap
      ensures ListsValid() && Listed(Trim(g, b, n), L) && Encoded(mem[..], Trim(g, b, n))
      ensures OnlyMetaChanges(old(mem[..]), mem[..], g, Trim(g, b, n))
    {
      if size - n >= WHOLE_HEADER {
        SeamCuttable(mem[..], g, b, n);
        hide Linked, Mapped, Listed, Encoded, OnlyMetaChanges, Cuttable;
        Cut(b, m, n, true, g);
      }
    }

    /** The free block after the live block b leaves its list. */
    method ExtractNext(b: Word, next: Word)
      requires Valid() && h.IsLive(b) && next == h.Next(b) && h.IsFree(next)
      modifies this`flBitmap, this`L, mem, matrix, slBitmap
      ensures ListsValid() && Listed(JoinNext(h, b), L) && Seam(mem[..], JoinNext(h, b), b)
      ensures h.Tiled() && h == old(h) && OnlyMetaChanges(old(mem[..]), mem[..], h, h)
      ensures next + HEADER <= mem.Length && b + HEADER <= mem.Length
      ensures mem[b + SIZE] == old(mem[b + SIZE]) && mem[next + SIZE] == old(mem[next + SIZE])
    {
      ghost var M0, L0 := mem[..], L;
      LiveFacts(M0, h, L, b);
      FreeNextFacts(M0, h, L, b);
      hide Linked, Mapped, Listed, Encoded, OnlyMetaChanges, OnlyLinksChange, HeapValid, SizeOf;
      hide MappingInsert, JoinNext, Seam;
      var c := MappingInsert(SizeOf(mem[next + SIZE]));
      Extract(next, c.fl, c.sl);
      JoinedStep(M0, mem[..], h, L0, b);
      assert SameHeader(M0, mem[..], b) && SameHeader(M0, mem[..], next);
    }

    /** realloc_ex, when the block is already large enough. */
    method Shrink(b: Word, n: Word, ghost size0: nat)
      requires Valid() && h.IsLive(b) && size0 <= n && MIN_BLOCK <= n <= h.blocks[b].size && n % 8 == 0
      modifies this`flBitmap, this`L, this`clock, this`h, mem, matrix, slBitmap
      ensures Valid() && Resizes(old(h), h, b, n) && Call(old(h), h)
      ensures Reallocated(old(mem[..]), mem[..], old(h), h, b, b, size0)
    {
      ghost var M0, g := mem[..], JoinNext(h, b);
      LiveFacts(M0, h, L, b);
      JoinNextExact(h, b);
      if h.IsFree(h.Next(b)) {
        FreeNextFacts(M0, h, L, b);
      } else {
        LiveSeam(M0, h, L, b);
      }
      NothingChanges(M0, h);
      hide Linked, Mapped, Listed, Encoded, OnlyMetaChanges, HeapValid, SizeOf, FreeBit, JoinNext, Seam;
      hide Heap.Tiled, Reallocated, Resizes;
      var size := SizeOf(mem[b + SIZE]);
      var next := b + HEADER + size;
      if FreeBit(mem[next + SIZE]) {
        ExtractNext(b, next);
        size := size + SizeOf(mem[next + SIZE]) + HEADER;
        next := next + HEADER + SizeOf(mem[next + SIZE]);
      }
      ghost var M1 := mem[..];
      TrimTo(b, next, size, n, g);
      ResizeDone(M0, M1, mem[..], h, b, n, size0);
      ResizeIsCall(h, Resize(h, b, n), b, n);
      h := Resize(h, b, n);
    }

    /** b takes over the size word v of the block it has become, which ends at the block that is told so. */
    method GrowInto(b: Word, v: Word, ghost g: Heap) returns (m: Word)
      requires ListsValid() && Listed(g, L) && Seam(mem[..], g, b) && v == Tag(g, b)
      modifies mem
      ensures ListsValid() && m == g.Next(b) && Encoded(mem[..], g) && Seam(mem[..], g, b)
      ensures OnlyMetaChanges(old(mem[..]), mem[..], g, g)
    {
      GrownEncoded(mem[..], g, L, b, v);
      hide Linked, Mapped, Listed, Encoded, OnlyMetaChanges, SizeOf, Seam, LinkWord, Tag;
      StoreHeader(b + SIZE, v);
      m := b + HEADER + SizeOf(mem[b + SIZE]);
      StoreHeader(m, b);
      StoreHeader(m + SIZE, ClearPrev(mem[m + SIZE]));
    }

    /** realloc_ex, when the block and the free block after it are large enough together. */
    method Grow(b: Word, n: Word, ghost size0: nat)
      requires Valid() && h.IsLive(b) && size0 <= n && h.IsFree(h.Next(b)) && n >= MIN_BLOCK && n % 8 == 0
      requires n <= h.blocks[b].size + h.blocks[h.Next(b)].size
      modifies this`flBitmap, this`L, this`clock, this`h, mem, matrix, slBitmap
      ensures Valid() && Resizes(old(h), h, b, n) && Call(old(h), h)
      ensures Reallocated(old(mem[..]), mem[..], old(h), h, b, b, size0)
    {
      ghost var M0, g := mem[..], JoinNext(h, b);
      LiveFacts(M0, h, L, b);
      FreeNextFacts(M0, h, L, b);
      JoinedTag(h, b);
      hide Linked, Mapped, Listed, Encoded, OnlyMetaChanges, HeapValid, SizeOf, FreeBit, JoinNext, Seam;
      hide Heap.Tiled, Reallocated, Resizes, Tag, Heap.PrevFree;
      var next := b + HEADER + SizeOf(mem[b + SIZE]);
      ExtractNext(b, next);
      ghost var M1 := mem[..];
      var m := GrowInto(b, mem[b + SIZE] + SizeOf(mem[next + SIZE]) + HEADER, g);
      ghost var M2 := mem[..];
      TrimTo(b, m, m - b - HEADER, n, g);
      GrownDone(M0, M1, M2, mem[..], h, b, n, size0);
      ResizeIsCall(h, Resize(h, b, n), b, n);
      h := Resize(h, b, n);
    }

    /** A client's store into the payload of a live block. */
    method WritePayload(ghost u: nat, x: nat, v: Word)
      requires Valid() && h.IsLive(u) && u + HEADER <= x < h.Next(u)
      modifies mem
      ensures Valid() && x < mem.Length && mem[..] == old(mem[..])[x := v]
    {
      PayloadStore(mem[..], matrix[..], h, L, clock, u, x, v);
      hide Linked, Mapped, Encoded, Listed, HeapValid;
      Store(x, v);
    }

    /** memcpy between the payloads of two live blocks, a word at a time. */
    method CopyPayload(dst: Word, src: Word, len: Word)
      requires Valid() && dst >= HEADER && src >= HEADER && dst != src && len % 8 == 0
      requires h.IsLive(dst - HEADER) && h.IsLive(src - HEADER)
      requires len <= h.blocks[dst - HEADER].size && len <= h.blocks[src - HEADER].size
      modifies mem
      ensures Valid() && Copied(old(mem[..]), mem[..], src - HEADER, dst - HEADER, len)
    {
      hide Valid, ListsValid, HeapValid, Copied, Heap.Tiled;
      ghost var M0, b, b' := mem[..], src - HEADER, dst - HEADER;
      ValidHeap();
      CopyBounds(h, b', b, len);
      NothingCopied(M0, b, b');
      var i := 0;
      while i < len
        invariant i % 4 == 0 && i <= len
        invariant Valid() && mem.Length == |M0| && Copied(M0, mem[..], b, b', i)
      {
        CopiedMore(M0, mem[..], b, b', i, len);
        WritePayload(b', dst + i, mem[src + i]);
        i := i + 4;
      }
    }

    /** The contents of ptr go to the new block p, and ptr is freed. */
    method CopyAndFree(ptr: Word, p: Word, n: Word, ghost r: nat, ghost size: nat, ghost M: Memory, ghost h0: Heap)
      requires Valid() && HeapValid(h0) && |M| == h0.end + HEADER && ptr >= HEADER && p >= HEADER && h0.IsLive(ptr - HEADER)
      requires Allocated(M, mem[..], h0, h, p - HEADER, r) && size <= n <= r && n % 8 == 0
      modifies this`flBitmap, this`L, this`clock, this`h, mem, matrix, slBitmap
      ensures Valid() && Moved(M, mem[..], h0, h, ptr - HEADER, p - HEADER, r, size) && Call(h0, h)
    {
      ghost var A, h1 := mem[..], h;
      ghost var b, b' := ptr - HEADER, p - HEADER;
      MoveStarts(M, A, h0, h1, L, b, b', r);
      hide Linked, Mapped, Encoded, Listed, HeapValid, Heap.Tiled, Allocated, Copied, SizeOf, PayloadsKept;
      hide Moved, Release, Call;
      var cpsize := if SizeOf(mem[ptr - HEADER + SIZE]) > n then n else SizeOf(mem[ptr - HEADER + SIZE]);
      CopyPayload(p, ptr, cpsize);
      ghost var C := mem[..];
      Free(ptr);
      MoveReallocated(M, A, C, mem[..], h0, h1, b, b', r, cpsize, size);
    }

    lemma ValidHeap()
      requires Valid()
      ensures HeapValid(h) && |mem[..]| == h.end + HEADER
    {
    }

    /** realloc_ex, when the block has to move. */
    method Move(ptr: Word, n: Word, ghost size: nat) returns (p: Word)
      requires Valid() && ptr >= HEADER && h.IsLive(ptr - HEADER)
      requires n <= MAX_REQUEST && RoundUp(n) == n && size <= n
      modifies this`flBitmap, this`L, this`clock, this`h, mem, matrix, slBitmap
      ensures Valid() && Call(old(h), h)
      ensures p == 0 <==> NoneFits(old(h), MappingSearch(n).r)
      ensures p == 0 ==> h == old(h) && mem[..] == old(mem[..])
      ensures p != 0 ==> p >= HEADER && p != ptr && Moved(old(mem[..]), mem[..], old(h), h, ptr - HEADER, p - HEADER, MappingSearch(n).r, size)
    {
      hide Valid, ListsValid, HeapValid, Allocated, Moved, NoneFits, MappingSearch, RoundUp, Takes, Call, BestClass;
      ghost var M, h0 := mem[..], h;
      RequestCovered(n);
      ValidHeap();
      p := Malloc(n);
      if p != 0 {
        AllocatedTakes(M, mem[..], h0, h, p - HEADER, MappingSearch(n).r);
        CopyAndFree(ptr, p, n, MappingSearch(n).r, size, M, h0);
      }
    }

    /** realloc_ex */
    method Realloc(ptr: Word, newSize: Word) returns (p: Word)
      requires Valid() && (ptr == 0 || (ptr >= HEADER && h.IsLive(ptr - HEADER)))
      requires newSize <= MAX_REQUEST || (ptr != 0 && newSize < SIZE_LIMIT && StaysInPlace(h, ptr - HEADER, RoundUp(newSize)))
      modifies this`flBitmap, this`L, this`clock, this`h, mem, matrix, slBitmap
      ensures Valid() && Call(old(h), h)
      ensures ptr == 0 && newSize == 0 ==> p == 0 && h == old(h) && mem[..] == old(mem[..])
      ensures ptr != 0 && newSize == 0 ==> p == 0 && old(h).Tiled() && h == Release(old(h), ptr - HEADER)
      ensures ptr != 0 && newSize == 0 ==> PayloadsKept(old(mem[..]), mem[..], old(h), ptr - HEADER)
      ensures newSize != 0 && p == 0 ==> h == old(h) && mem[..] == old(mem[..])
      ensures newSize != 0 ==> var n := RoundUp(newSize); var r := MappingSearch(n).r;
        if ptr == 0 then
          && (p == 0 <==> NoneFits(old(h), r))
          && (p != 0 ==> p >= HEADER && Allocated(old(mem[..]), mem[..], old(h), h, p - HEADER, r))
        else
          ReallocDone(old(mem[..]), mem[..], old(h), h, ptr, p, newSize)
    {
      hide ReallocDone, Step, Encoded, Listed, HeapValid, Linked, Mapped;
      if ptr == 0 {
        if newSize != 0 {
          p := Malloc(newSize);
        } else {
          p := 0;
        }
        return;
      } else if newSize == 0 {
        Free(ptr);
        return 0;
      }
      p := ReallocLive(ptr, newSize);
    }

    method ReallocLive(ptr: Word, newSize: Word) returns (p: Word)
      requires Valid() && ptr >= HEADER && h.IsLive(ptr - HEADER)
      requires newSize != 0 && newSize < SIZE_LIMIT
      requires newSize <= MAX_REQUEST || StaysInPlace(h, ptr - HEADER, RoundUp(newSize))
      modifies this`flBitmap, this`L, this`clock, this`h, mem, matrix, slBitmap
      ensures Valid() && Call(old(h), h)
      ensures p == 0 ==> h == old(h) && mem[..] == old(mem[..])
      ensures ReallocDone(old(mem[..]), mem[..], old(h), h, ptr, p, newSize)
    {
      hide Linked, Mapped, Encoded, Listed, HeapValid, Heap.Tiled, Reallocated, Moved, NoneFits, MappingSearch;
      hide RoundUp, SizeOf, Resize, JoinNext, FreeBit, Resizes, Call;
      var b, n := ptr - HEADER, RoundUp(newSize);
      RoundUpExact(newSize);
      LiveFacts(mem[..], h, L, b);
      var size := SizeOf(mem[b + SIZE]);
      var next := b + HEADER + size;
      if n <= size {
        Shrink(b, n, newSize);
        return ptr;
      }
      if FreeBit(mem[next + SIZE]) {
        if n <= size + SizeOf(mem[next + SIZE]) {
          Grow(b, n, newSize);
          return ptr;
        }
      }
      p := Move(ptr, n, newSize);
    }
  }
}
