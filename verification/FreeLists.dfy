/** The segregated free lists of tlsf.c: doubly linked lists threaded through the pool, one per size class,
    and the two-level bitmap that says which lists are non-empty. */
module FreeLists {
  import opened Bits
  import opened SizeClasses

  /** What the model knows of a listed block: its list, and when it was put there. */
  datatype Entry = Entry(cls: nat, stamp: nat)

  type Listing = map<nat, Entry>

  /** The pool, one 32-bit word at each byte address that is a multiple of 4. */
  type Memory = seq<Word>

  const PREV := 8
  const NEXT := 12

  ghost predicate InPool(M: Memory, a: nat) {
    0 < a && a % 8 == 0 && a + 16 <= |M|
  }

  /** The block behind a in its list, if any, is an older block of the same list that points back at a. */
  ghost predicate NextAt(M: Memory, L: Listing, a: nat)
    requires a in L
  {
    && InPool(M, a)
    && var n := M[a + NEXT];
    n != 0 ==> n in L && InPool(M, n) && L[n].cls == L[a].cls && L[n].stamp < L[a].stamp && M[n + PREV] == a
  }

  /** The block in front of a, if any, is a newer block of the same list that points back at a; otherwise a is the head. */
  ghost predicate PrevAt(M: Memory, heads: seq<Word>, L: Listing, a: nat)
    requires |heads| == CLASSES && a in L
  {
    && InPool(M, a)
    && L[a].cls < CLASSES
    && var p := M[a + PREV];
    && (p != 0 ==> p in L && InPool(M, p) && L[p].cls == L[a].cls && L[a].stamp < L[p].stamp && M[p + NEXT] == a)
    && (p == 0 ==> heads[L[a].cls] == a)
  }

  ghost predicate LinkedAt(M: Memory, heads: seq<Word>, L: Listing, a: nat)
    requires |heads| == CLASSES && a in L
  {
    NextAt(M, L, a) && PrevAt(M, heads, L, a)
  }

  ghost predicate HeadAt(M: Memory, L: Listing, c: nat, h: Word) {
    h != 0 ==> h in L && L[h].cls == c && InPool(M, h) && M[h + PREV] == 0
  }

  ghost predicate Linked(M: Memory, heads: seq<Word>, L: Listing, clock: nat) {
    && |heads| == CLASSES
    && (forall a {:trigger LinkedAt(M, heads, L, a)} | a in L :: LinkedAt(M, heads, L, a) && L[a].stamp < clock)
    && (forall c {:trigger HeadAt(M, L, c, heads[c])} | 0 <= c < CLASSES :: HeadAt(M, L, c, heads[c]))
  }

  /** x is the address of a link of some listed block. */
  predicate LinkWord(L: Listing, x: int) {
    x - PREV in L || x - NEXT in L
  }

  ghost predicate OnlyLinksChange(M: Memory, M': Memory, L: Listing) {
    && |M'| == |M|
    && forall x | 0 <= x < |M| :: M'[x] == M[x] || LinkWord(L, x)
  }

  // ----- INSERT_BLOCK

  function PushLinks(M: Memory, head: Word, b: Word): Memory
    requires b + 16 <= |M| && (head != 0 ==> head + 16 <= |M|)
  {
    var m := M[b + PREV := 0][b + NEXT := head];
    if head != 0 then m[head + PREV := b] else m
  }

  lemma PushNextAt(M: Memory, heads: seq<Word>, L: Listing, clock: nat, b: Word, c: nat, a: nat)
    requires Linked(M, heads, L, clock) && c < CLASSES && HeadAt(M, L, c, heads[c])
    requires b !in L && InPool(M, b) && (a == b || a in L)
    ensures NextAt(PushLinks(M, heads[c], b), L[b := Entry(c, clock)], a)
  {
    if a != b {
      assert LinkedAt(M, heads, L, a);
    } else if heads[c] != 0 {
      assert LinkedAt(M, heads, L, heads[c]);
    }
  }

  lemma PushPrevAt(M: Memory, heads: seq<Word>, L: Listing, clock: nat, b: Word, c: nat, a: nat)
    requires Linked(M, heads, L, clock) && c < CLASSES && HeadAt(M, L, c, heads[c])
    requires b !in L && InPool(M, b) && (a == b || a in L)
    ensures PrevAt(PushLinks(M, heads[c], b), heads[c := b], L[b := Entry(c, clock)], a)
    ensures a in L ==> L[a].stamp < clock
  {
    if a != b {
      assert LinkedAt(M, heads, L, a);
    }
  }

  lemma PushHeadAt(M: Memory, heads: seq<Word>, L: Listing, clock: nat, b: Word, c: nat, k: nat)
    requires Linked(M, heads, L, clock) && c < CLASSES && HeadAt(M, L, c, heads[c])
    requires b !in L && InPool(M, b) && k < CLASSES
    ensures HeadAt(PushLinks(M, heads[c], b), L[b := Entry(c, clock)], k, heads[c := b][k])
  {
    assert HeadAt(M, L, k, heads[k]);
  }

  lemma PushOnlyLinks(M: Memory, L: Listing, clock: nat, b: Word, c: nat, h: Word)
    requires InPool(M, b) && HeadAt(M, L, c, h)
    ensures OnlyLinksChange(M, PushLinks(M, h, b), L[b := Entry(c, clock)])
  {
  }

  lemma PushLinked(M: Memory, heads: seq<Word>, L: Listing, clock: nat, b: Word, c: nat)
    requires Linked(M, heads, L, clock) && c < CLASSES && HeadAt(M, L, c, heads[c])
    requires b !in L && InPool(M, b)
    ensures Linked(PushLinks(M, heads[c], b), heads[c := b], L[b := Entry(c, clock)], clock + 1)
  {
    var M', heads', L' := PushLinks(M, heads[c], b), heads[c := b], L[b := Entry(c, clock)];
    hide PushLinks, HeadAt, NextAt, PrevAt;
    forall a {:trigger LinkedAt(M', heads', L', a)} | a in L'
      ensures LinkedAt(M', heads', L', a) && L'[a].stamp < clock + 1
    {
      PushNextAt(M, heads, L, clock, b, c, a);
      PushPrevAt(M, heads, L, clock, b, c, a);
    }
    forall k | 0 <= k < CLASSES
      ensures HeadAt(M', L', k, heads'[k])
    {
      PushHeadAt(M, heads, L, clock, b, c, k);
    }
  }

  // ----- EXTRACT_BLOCK

  lemma NeighbourBounds(M: Memory, heads: seq<Word>, L: Listing, b: Word)
    requires |heads| == CLASSES && b in L && LinkedAt(M, heads, L, b)
    ensures b != 0 && b + 16 <= |M| && L[b].cls < CLASSES
    ensures M[b + NEXT] != 0 ==> M[b + NEXT] + 16 <= |M|
    ensures M[b + PREV] != 0 ==> M[b + PREV] + 16 <= |M|
    ensures var n, p := M[b + NEXT], M[b + PREV];
      (n == 0 || (n + PREV != b + PREV && n + PREV != b + NEXT)) && (p == 0 || (p + NEXT != b + PREV && p + NEXT != b + NEXT))
  {
  }

  /** The neighbours n and p of an extracted block point at each other. */
  function JoinNeighbours(M: Memory, n: Word, p: Word): Memory
    requires n != 0 ==> n + 16 <= |M|
    requires p != 0 ==> p + 16 <= |M|
  {
    var m := if n != 0 then M[n + PREV := p] else M;
    if p != 0 then m[p + NEXT := n] else m
  }

  function UnlinkLinks(M: Memory, n: Word, p: Word, b: Word): Memory
    requires b + 16 <= |M|
    requires n != 0 ==> n + 16 <= |M|
    requires p != 0 ==> p + 16 <= |M|
  {
    JoinNeighbours(M, n, p)[b + PREV := 0][b + NEXT := 0]
  }

  function UnlinkHeads(heads: seq<Word>, c: nat, b: Word, n: Word): seq<Word>
    requires c < |heads|
  {
    if heads[c] == b then heads[c := n] else heads
  }

  lemma UnlinkNextAt(M: Memory, heads: seq<Word>, L: Listing, clock: nat, b: Word, n: Word, p: Word, a: nat)
    requires Linked(M, heads, L, clock)
    requires b in L && LinkedAt(M, heads, L, b) && n == M[b + NEXT] && p == M[b + PREV]
    requires a in L && a != b
    ensures NextAt(UnlinkLinks(M, n, p, b), L - {b}, a)
  {
    assert LinkedAt(M, heads, L, a);
  }

  /** The block behind b gets the block in front of b as its neighbour. */
  lemma UnlinkPrevOfNext(M: Memory, heads: seq<Word>, L: Listing, clock: nat, b: Word, n: Word, p: Word)
    requires Linked(M, heads, L, clock)
    requires b in L && LinkedAt(M, heads, L, b) && n == M[b + NEXT] && p == M[b + PREV] && n != 0 && n != b
    ensures PrevAt(UnlinkLinks(M, n, p, b), UnlinkHeads(heads, L[b].cls, b, n), L - {b}, n)
  {
    assert LinkedAt(M, heads, L, n);
  }

  lemma UnlinkPrevOfOther(M: Memory, heads: seq<Word>, L: Listing, clock: nat, b: Word, n: Word, p: Word, a: nat)
    requires Linked(M, heads, L, clock)
    requires b in L && LinkedAt(M, heads, L, b) && n == M[b + NEXT] && p == M[b + PREV]
    requires a in L && a != b && a != n
    ensures PrevAt(UnlinkLinks(M, n, p, b), UnlinkHeads(heads, L[b].cls, b, n), L - {b}, a)
  {
    assert LinkedAt(M, heads, L, a);
    assert HeadAt(M, L, L[b].cls, heads[L[b].cls]);
  }

  lemma UnlinkPrevAt(M: Memory, heads: seq<Word>, L: Listing, clock: nat, b: Word, n: Word, p: Word, a: nat)
    requires Linked(M, heads, L, clock)
    requires b in L && LinkedAt(M, heads, L, b) && n == M[b + NEXT] && p == M[b + PREV]
    requires a in L && a != b
    ensures PrevAt(UnlinkLinks(M, n, p, b), UnlinkHeads(heads, L[b].cls, b, n), L - {b}, a)
  {
    assert LinkedAt(M, heads, L, a);
    hide UnlinkLinks, UnlinkHeads, PrevAt;
    if a == n {
      UnlinkPrevOfNext(M, heads, L, clock, b, n, p);
    } else {
      UnlinkPrevOfOther(M, heads, L, clock, b, n, p, a);
    }
  }

  lemma UnlinkHeadAt(M: Memory, heads: seq<Word>, L: Listing, clock: nat, b: Word, n: Word, p: Word, k: nat)
    requires Linked(M, heads, L, clock)
    requires b in L && LinkedAt(M, heads, L, b) && n == M[b + NEXT] && p == M[b + PREV]
    requires k < CLASSES
    ensures HeadAt(UnlinkLinks(M, n, p, b), L - {b}, k, UnlinkHeads(heads, L[b].cls, b, n)[k])
  {
    var h := heads[k];
    assert HeadAt(M, L, k, h);
    if h == b {
      assert k == L[b].cls && p == 0;
    } 
  }

  lemma UnlinkOnlyLinks(M: Memory, heads: seq<Word>, L: Listing, b: Word, n: Word, p: Word)
    requires |heads| == CLASSES
    requires b in L && LinkedAt(M, heads, L, b) && n == M[b + NEXT] && p == M[b + PREV]
    ensures OnlyLinksChange(M, UnlinkLinks(M, n, p, b), L)
  {
  }

  lemma UnlinkLinked(M: Memory, heads: seq<Word>, L: Listing, clock: nat, b: Word, n: Word, p: Word)
    requires Linked(M, heads, L, clock)
    requires b in L && LinkedAt(M, heads, L, b) && n == M[b + NEXT] && p == M[b + PREV]
    ensures Linked(UnlinkLinks(M, n, p, b), UnlinkHeads(heads, L[b].cls, b, n), L - {b}, clock)
  {
    var M', heads', L' := UnlinkLinks(M, n, p, b), UnlinkHeads(heads, L[b].cls, b, n), L - {b};
    hide UnlinkLinks, HeadAt, NextAt, PrevAt;
    forall a {:trigger LinkedAt(M', heads', L', a)} | a in L'
      ensures LinkedAt(M', heads', L', a) && L'[a].stamp < clock
    {
      assert LinkedAt(M, heads, L, a);
      UnlinkNextAt(M, heads, L, clock, b, n, p, a);
      UnlinkPrevAt(M, heads, L, clock, b, n, p, a);
    }
    forall k | 0 <= k < CLASSES
      ensures HeadAt(M', L', k, heads'[k])
    {
      UnlinkHeadAt(M, heads, L, clock, b, n, p, k);
    }
  }

  /** The first block of a list leaves it. */
  lemma HeadUnlinked(M: Memory, heads: seq<Word>, sl: seq<bv32>, fl: bv32, L: Listing, clock: nat, b: Word, f: nat, s: nat)
    requires Linked(M, heads, L, clock) && Mapped(heads, sl, fl) && f < REAL_FLI && s < MAX_SLI
    requires b != 0 && Head(heads, f, s) == b
    ensures |heads| == CLASSES && |sl| == REAL_FLI && b in L && b + 16 <= |M| && heads[MAX_SLI * f + s] == b
    ensures var n := M[b + NEXT];
      && (n != 0 ==> n + 16 <= |M| && n != b)
      && var M' := (if n != 0 then M[n + PREV := 0] else M)[b + PREV := 0][b + NEXT := 0];
      OnlyLinksChange(M, M', L) && Linked(M', heads[MAX_SLI * f + s := n], L - {b}, clock)
  {
    var c := MAX_SLI * f + s;
    assert HeadAt(M, L, c, heads[c]);
    assert LinkedAt(M, heads, L, b);
    var n := M[b + NEXT];
    UnlinkLinked(M, heads, L, clock, b, n, 0);
    UnlinkOnlyLinks(M, heads, L, b, n, 0);
    hide Linked, Mapped, OnlyLinksChange;
  }

  // ----- the lists hold exactly the listed blocks

  /** The list met by following the next links from a. */
  ghost function Walk(M: Memory, heads: seq<Word>, L: Listing, clock: nat, a: Word): seq<Word>
    requires Linked(M, heads, L, clock) && (a != 0 ==> a in L)
    decreases if a != 0 && a in L then L[a].stamp + 1 else 0
  {
    if a == 0 then []
    else
      assert LinkedAt(M, heads, L, a);
      [a] + Walk(M, heads, L, clock, M[a + NEXT])
  }

  /** w holds blocks listed under c, newest first (so no block twice). */
  ghost predicate NewestFirst(L: Listing, w: seq<Word>, c: nat) {
    && (forall i | 0 <= i < |w| :: w[i] in L && L[w[i]].cls == c)
    && (forall i, j | 0 <= i < j < |w| :: L[w[j]].stamp < L[w[i]].stamp)
  }

  lemma ConsNewestFirst(L: Listing, a: Word, rest: seq<Word>)
    requires a in L && NewestFirst(L, rest, L[a].cls)
    requires rest != [] ==> L[rest[0]].stamp < L[a].stamp
    ensures NewestFirst(L, [a] + rest, L[a].cls)
  {
  }

  lemma {:induction false} WalkSorted(M: Memory, heads: seq<Word>, L: Listing, clock: nat, a: Word)
    requires Linked(M, heads, L, clock) && a in L && a != 0
    ensures NewestFirst(L, Walk(M, heads, L, clock, a), L[a].cls)
    decreases L[a].stamp
  {
    assert LinkedAt(M, heads, L, a);
    var n := M[a + NEXT];
    if n != 0 {
      WalkSorted(M, heads, L, clock, n);
    }
    ConsNewestFirst(L, a, Walk(M, heads, L, clock, n));
  }

  lemma {:induction false} WalkStep(M: Memory, heads: seq<Word>, L: Listing, clock: nat, h: Word, p: Word)
    requires Linked(M, heads, L, clock) && h in L && h != 0
    requires p in Walk(M, heads, L, clock, h) && p in L && InPool(M, p) && M[p + NEXT] != 0
    ensures M[p + NEXT] in Walk(M, heads, L, clock, h)
    decreases L[h].stamp
  {
    assert LinkedAt(M, heads, L, h);
    var n := M[h + NEXT];
    if p == h {
      assert Walk(M, heads, L, clock, n)[0] == n;
    } else {
      WalkStep(M, heads, L, clock, n, p);
    }
  }

  /** Every listed block is on the list of its class. */
  lemma {:induction false} ReachedFromHead(M: Memory, heads: seq<Word>, L: Listing, clock: nat, a: nat)
    requires Linked(M, heads, L, clock) && a in L
    ensures L[a].cls < CLASSES
    ensures var h := heads[L[a].cls]; h != 0 && h in L && a in Walk(M, heads, L, clock, h)
    decreases clock - L[a].stamp
  {
    assert LinkedAt(M, heads, L, a);
    var h := heads[L[a].cls];
    assert HeadAt(M, L, L[a].cls, h);
    var p := M[a + PREV];
    if p == 0 {
      assert Walk(M, heads, L, clock, h)[0] == a;
    } else {
      assert LinkedAt(M, heads, L, p);
      ReachedFromHead(M, heads, L, clock, p);
      WalkStep(M, heads, L, clock, h, p);
    }
  }

  /** List c, read from its head, holds each block listed under c exactly once, newest first, and nothing else. */
  lemma ListsExact(M: Memory, heads: seq<Word>, L: Listing, clock: nat, c: nat)
    requires Linked(M, heads, L, clock) && c < CLASSES
    ensures HeadAt(M, L, c, heads[c])
    ensures var w := Walk(M, heads, L, clock, heads[c]);
      && (forall a: nat :: a in w <==> a in L && L[a].cls == c)
      && NewestFirst(L, w, c)
      && (forall i, j | 0 <= i < j < |w| :: w[i] != w[j])
  {
    assert HeadAt(M, L, c, heads[c]);
    var w := Walk(M, heads, L, clock, heads[c]);
    if heads[c] != 0 {
      WalkSorted(M, heads, L, clock, heads[c]);
    }
    forall a: nat | a in L && L[a].cls == c
      ensures a in w
    {
      ReachedFromHead(M, heads, L, clock, a);
    }
  }

  // ----- the bitmaps

  function Head(heads: seq<Word>, f: nat, s: nat): Word
    requires |heads| == CLASSES && f < REAL_FLI && s < MAX_SLI
  {
    heads[MAX_SLI * f + s]
  }

  /** Bit s of row f says whether list (f, s) is non-empty; bit f of the first level says whether row f has a bit. */
  ghost predicate Mapped(heads: seq<Word>, sl: seq<bv32>, fl: bv32) {
    && |heads| == CLASSES && |sl| == REAL_FLI
    && (forall f, s | 0 <= f < REAL_FLI && 0 <= s < MAX_SLI :: Bit(sl[f], s) <==> Head(heads, f, s) != 0)
    && (forall f | 0 <= f < REAL_FLI :: Bit(fl, f) <==> sl[f] != 0)
    && (forall f | REAL_FLI <= f < 32 :: !Bit(fl, f))
  }

  lemma SetRows(heads: seq<Word>, sl: seq<bv32>, fl: bv32, f: nat, s: nat, b: Word)
    requires Mapped(heads, sl, fl) && f < REAL_FLI && s < MAX_SLI && b != 0
    ensures var heads', sl' := heads[MAX_SLI * f + s := b], sl[f := SetBit(s, sl[f])];
      forall g, t | 0 <= g < REAL_FLI && 0 <= t < MAX_SLI :: Bit(sl'[g], t) <==> Head(heads', g, t) != 0
  {
    var heads', sl' := heads[MAX_SLI * f + s := b], sl[f := SetBit(s, sl[f])];
    hide Bit, SetBit;
    forall g, t | 0 <= g < REAL_FLI && 0 <= t < MAX_SLI
      ensures Bit(sl'[g], t) <==> Head(heads', g, t) != 0
    {
      SetBitExact(s, sl[f], t);
      assert Bit(sl[g], t) <==> Head(heads, g, t) != 0;
    }
  }

  lemma SetMapped(heads: seq<Word>, sl: seq<bv32>, fl: bv32, f: nat, s: nat, b: Word)
    requires Mapped(heads, sl, fl) && f < REAL_FLI && s < MAX_SLI && b != 0
    ensures Mapped(heads[MAX_SLI * f + s := b], sl[f := SetBit(s, sl[f])], SetBit(f, fl))
  {
    SetRows(heads, sl, fl, f, s, b);
    SetBitExact(s, sl[f], s);
    ZeroHasNoBit(s);
    hide Bit, SetBit, Head;
    var fl' := SetBit(f, fl);
    forall g: nat | g < 32
      ensures Bit(fl', g) <==> g == f || Bit(fl, g)
    {
      SetBitExact(f, fl, g);
    }
  }

  lemma ZeroHasNoBit(s: nat)
    requires s < 32
    ensures !Bit(0, s)
  {
  }

  /** What both extraction macros do to the bitmaps when list (f, s) has become empty. */
  function ClearedRow(sl: seq<bv32>, f: nat, s: nat): seq<bv32>
    requires f < |sl| && s < MAX_SLI
  {
    sl[f := ClearBit(s, sl[f])]
  }

  function ClearedTop(row: bv32, fl: bv32, f: nat): bv32
    requires f < 32
  {
    if row == 0 then ClearBit(f, fl) else fl
  }

  lemma ClearMapped(heads: seq<Word>, sl: seq<bv32>, fl: bv32, f: nat, s: nat)
    requires Mapped(heads, sl, fl) && f < REAL_FLI && s < MAX_SLI
    ensures var sl' := ClearedRow(sl, f, s);
      Mapped(heads[MAX_SLI * f + s := 0], sl', ClearedTop(sl'[f], fl, f))
  {
    var heads', sl' := heads[MAX_SLI * f + s := 0], ClearedRow(sl, f, s);
    var fl' := ClearedTop(sl'[f], fl, f);
    var row := sl'[f];
    assert row == ClearBit(s, sl[f]);
    hide Bit, ClearBit;
    forall g, t | 0 <= g < REAL_FLI && 0 <= t < MAX_SLI
      ensures Bit(sl'[g], t) <==> Head(heads', g, t) != 0
    {
      ClearBitExact(s, sl[f], t);
      assert Bit(sl[g], t) <==> Head(heads, g, t) != 0;
    }
    forall g | 0 <= g < REAL_FLI
      ensures Bit(fl', g) <==> sl'[g] != 0
    {
      assert Bit(fl, g) <==> sl[g] != 0;
      ClearBitExact(f, fl, g);
      if row != 0 {
        LsBitExact(row);
        ClearBitExact(s, sl[f], LsBit(row));
        ZeroHasNoBit(LsBit(row));
      }
    }
    forall g | REAL_FLI <= g < 32
      ensures !Bit(fl', g)
    {
      ClearBitExact(f, fl, g);
    }
  }

  /** Replacing a non-empty head by another leaves the bitmaps right. */
  lemma ReplaceMapped(heads: seq<Word>, sl: seq<bv32>, fl: bv32, f: nat, s: nat, n: Word)
    requires Mapped(heads, sl, fl) && f < REAL_FLI && s < MAX_SLI
    requires Head(heads, f, s) != 0 && n != 0
    ensures Mapped(heads[MAX_SLI * f + s := n], sl, fl)
  {
    var heads' := heads[MAX_SLI * f + s := n];
    forall g, t | 0 <= g < REAL_FLI && 0 <= t < MAX_SLI
      ensures Bit(sl[g], t) <==> Head(heads', g, t) != 0
    {
      assert Bit(sl[g], t) <==> Head(heads, g, t) != 0;
    }
  }

  // ----- FIND_SUITABLE_BLOCK

  ghost predicate EmptyBetween(heads: seq<Word>, lo: nat, hi: nat)
    requires hi <= |heads|
  {
    forall c | lo <= c < hi :: heads[c] == 0
  }

  lemma EmptyInRow(heads: seq<Word>, sl: seq<bv32>, fl: bv32, f: nat, lo: nat, hi: nat)
    requires Mapped(heads, sl, fl) && f < REAL_FLI && lo <= hi <= MAX_SLI
    requires forall t: nat | lo <= t < hi :: !Bit(sl[f], t)
    ensures EmptyBetween(heads, MAX_SLI * f + lo, MAX_SLI * f + hi)
  {
    forall c | MAX_SLI * f + lo <= c < MAX_SLI * f + hi
      ensures heads[c] == 0
    {
      assert Head(heads, f, c - MAX_SLI * f) == heads[c];
    }
  }

  lemma {:induction false} EmptyRows(heads: seq<Word>, sl: seq<bv32>, fl: bv32, lo: nat, hi: nat)
    requires Mapped(heads, sl, fl) && lo <= hi <= REAL_FLI
    requires forall g: nat | lo <= g < hi :: !Bit(fl, g)
    ensures EmptyBetween(heads, MAX_SLI * lo, MAX_SLI * hi)
  {
    if lo < hi {
      hide Bit;
      EmptyRows(heads, sl, fl, lo, hi - 1);
      var row := sl[hi - 1];
      forall t: nat | t < MAX_SLI
        ensures !Bit(row, t)
      {
        ZeroHasNoBit(t);
      }
      EmptyInRow(heads, sl, fl, hi - 1, 0, MAX_SLI);
    }
  }

  lemma NoBitsFrom(w: bv32, s: nat)
    requires s <= 32 && AndFrom(w, s) == 0
    ensures forall t: nat | s <= t < 32 :: !Bit(w, t)
  {
    hide Bit, AndFrom;
    forall t: nat | s <= t < 32
      ensures !Bit(w, t)
    {
      AndFromExact(w, s, t);
      ZeroHasNoBit(t);
    }
  }

  lemma FirstBitFrom(w: bv32, s: nat)
    requires s <= 32 && AndFrom(w, s) != 0
    ensures s <= LsBit(AndFrom(w, s)) < 32 && Bit(w, LsBit(AndFrom(w, s)))
    ensures forall t: nat | s <= t < LsBit(AndFrom(w, s)) :: !Bit(w, t)
  {
    hide Bit, AndFrom, LsBit;
    LsBitExact(AndFrom(w, s));
    AndFromExact(w, s, LsBit(AndFrom(w, s)));
    forall t: nat | s <= t < LsBit(AndFrom(w, s))
      ensures !Bit(w, t)
    {
      AndFromExact(w, s, t);
    }
  }

  /** The search stays in row f. */
  lemma FoundInRow(heads: seq<Word>, sl: seq<bv32>, fl: bv32, f: nat, s: nat)
    requires Mapped(heads, sl, fl) && f < REAL_FLI && s < MAX_SLI && AndFrom(sl[f], s) != 0
    ensures var t := LsBit(AndFrom(sl[f], s));
      s <= t < MAX_SLI && Head(heads, f, t) != 0 && EmptyBetween(heads, MAX_SLI * f + s, MAX_SLI * f + t)
  {
    hide Bit, AndFrom, LsBit;
    FirstBitFrom(sl[f], s);
    var t := LsBit(AndFrom(sl[f], s));
    assert Bit(sl[f], t) <==> Head(heads, f, t) != 0;
    EmptyInRow(heads, sl, fl, f, s, t);
  }

  /** The search moves on to a later row. */
  lemma FoundInLaterRow(heads: seq<Word>, sl: seq<bv32>, fl: bv32, f: nat, s: nat)
    requires Mapped(heads, sl, fl) && f < REAL_FLI && s < MAX_SLI
    requires AndFrom(sl[f], s) == 0 && AndFrom(fl, f + 1) != 0
    ensures var g := LsBit(AndFrom(fl, f + 1));
      && f < g < REAL_FLI
      && var t := LsBit(sl[g]);
      0 <= t < MAX_SLI && Head(heads, g, t) != 0 && EmptyBetween(heads, MAX_SLI * f + s, MAX_SLI * g + t)
  {
    hide Bit, AndFrom, LsBit;
    NoBitsFrom(sl[f], s);
    EmptyInRow(heads, sl, fl, f, s, MAX_SLI);
    FirstBitFrom(fl, f + 1);
    var g := LsBit(AndFrom(fl, f + 1));
    EmptyRows(heads, sl, fl, f + 1, g);
    LsBitExact(sl[g]);
    var t := LsBit(sl[g]);
    assert Bit(sl[g], t) <==> Head(heads, g, t) != 0;
    EmptyInRow(heads, sl, fl, g, 0, t);
  }

  lemma NotFound(heads: seq<Word>, sl: seq<bv32>, fl: bv32, f: nat, s: nat)
    requires Mapped(heads, sl, fl) && f < REAL_FLI && s < MAX_SLI
    requires AndFrom(sl[f], s) == 0 && AndFrom(fl, f + 1) == 0
    ensures EmptyBetween(heads, MAX_SLI * f + s, CLASSES)
  {
    hide Bit, AndFrom;
    NoBitsFrom(sl[f], s);
    EmptyInRow(heads, sl, fl, f, s, MAX_SLI);
    NoBitsFrom(fl, f + 1);
    EmptyRows(heads, sl, fl, f + 1, REAL_FLI);
  }

  /** Row f has nothing from s on: the first level decides. */
  lemma SearchTop(heads: seq<Word>, sl: seq<bv32>, fl: bv32, f: nat, s: nat)
    requires Mapped(heads, sl, fl) && f < REAL_FLI && s < MAX_SLI && AndFrom(sl[f], s) == 0
    ensures var g := LsBit(AndFrom(fl, f + 1));
      && (g <= 0 ==> EmptyBetween(heads, MAX_SLI * f + s, CLASSES))
      && (g > 0 ==>
        && f < g < REAL_FLI
        && var t := LsBit(sl[g]);
        0 <= t < MAX_SLI && Head(heads, g, t) != 0 && EmptyBetween(heads, MAX_SLI * f + s, MAX_SLI * g + t))
  {
    if AndFrom(fl, f + 1) == 0 {
      LsBitExact(0);
      NotFound(heads, sl, fl, f, s);
    } else {
      FoundInLaterRow(heads, sl, fl, f, s);
    }
  }
}
