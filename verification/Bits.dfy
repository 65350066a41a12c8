/** The bitmap primitives of tlsf.c: a 256-entry logarithm table, the two bit
    searches built on it, and single-bit updates of 32-bit words. */
module Bits {

  /** A 32-bit word read as an unsigned number. */
  type Word = w: int | 0 <= w < 0x1_0000_0000

  function Run(v: int, n: nat): seq<int> {
    seq(n, _ => v)
  }

  /** table[x] is the index of the highest set bit of x, and -1 for 0. */
  const TABLE: seq<int> :=
    [-1, 0, 1, 1] + Run(2, 4) + Run(3, 8) + Run(4, 16) + Run(5, 32) + Run(6, 64) + Run(7, 128)

  function Mask(i: nat): bv32
    requires i < 32
  {
    1 << i
  }

  predicate Meets(w: bv32, m: bv32) {
    w & m != 0
  }

  function Or(w: bv32, m: bv32): bv32 {
    w | m
  }

  function AndNot(w: bv32, m: bv32): bv32 {
    w & !m
  }

  predicate Bit(w: bv32, i: nat)
    requires i < 32
  {
    Meets(w, Mask(i))
  }

  function SetBit(nr: nat, w: bv32): bv32
    requires nr < 32
  {
    Or(w, Mask(nr))
  }

  function ClearBit(nr: nat, w: bv32): bv32
    requires nr < 32
  {
    AndNot(w, Mask(nr))
  }

  /** The mask (~0 << s). */
  function From(s: nat): bv32
    requires s <= 32
  {
    0xFFFF_FFFF << s
  }

  function LsBit(w: bv32): int {
    var x := w & -w;
    if x <= 0xffff then
      if x <= 0xff then TABLE[x as int] else TABLE[(x >> 8) as int] + 8
    else
      if x <= 0xffffff then TABLE[(x >> 16) as int] + 16 else TABLE[(x >> 24) as int] + 24
  }

  /** The size argument of ms_bit is an unsigned number; its right shifts divide. */
  function MsBit(x: Word): int {
    if x <= 0xffff then
      if x <= 0xff then TABLE[x] else TABLE[x / 0x100] + 8
    else
      if x <= 0xffffff then TABLE[x / 0x1_0000] + 16 else TABLE[x / 0x100_0000] + 24
  }

  // ----- single bits

  lemma MaskMeets(i: nat, j: nat)
    requires i < 32 && j < 32
    ensures Meets(Mask(i), Mask(j)) <==> i == j
  {
  }

  lemma OrMeets(w: bv32, m: bv32, n: bv32)
    requires !Meets(m, n)
    ensures Meets(w | m, n) <==> Meets(w, n)
  {
    assert (w | m) & n == w & n;
  }

  lemma OrOther(w: bv32, m: bv32, n: bv32)
    requires !Meets(m, n)
    ensures Meets(Or(w, m), n) <==> Meets(w, n)
  {
    hide Meets;
    OrMeets(w, m, n);
  }

  lemma OrSelf(w: bv32, m: bv32)
    requires Meets(m, m)
    ensures Meets(Or(w, m), m)
  {
    assert (w | m) & m == m;
  }

  lemma AndNotMeets(w: bv32, m: bv32, n: bv32)
    requires !Meets(m, n)
    ensures Meets(w & !m, n) <==> Meets(w, n)
  {
    assert (w & !m) & n == w & n;
  }

  lemma AndNotOther(w: bv32, m: bv32, n: bv32)
    requires !Meets(m, n)
    ensures Meets(AndNot(w, m), n) <==> Meets(w, n)
  {
    hide Meets;
    AndNotMeets(w, m, n);
  }

  lemma AndNotSelf(w: bv32, m: bv32)
    ensures !Meets(AndNot(w, m), m)
  {
  }

  lemma AndKeeps(w: bv32, f: bv32, m: bv32)
    requires Covers(f, m)
    ensures Meets(w & f, m) <==> Meets(w, m)
  {
    assert (w & f) & m == w & m;
  }

  lemma AndDrops(w: bv32, f: bv32, m: bv32)
    requires !Meets(f, m)
    ensures !Meets(w & f, m)
  {
  }

  lemma SetBitSame(nr: nat, w: bv32)
    requires nr < 32
    ensures Bit(SetBit(nr, w), nr)
  {
    hide Mask, Meets, Or;
    MaskMeets(nr, nr);
    OrSelf(w, Mask(nr));
  }

  lemma SetBitOther(nr: nat, w: bv32, j: nat)
    requires nr < 32 && j < 32 && nr != j
    ensures Bit(SetBit(nr, w), j) <==> Bit(w, j)
  {
    hide Mask, Meets, Or;
    MaskMeets(nr, j);
    OrOther(w, Mask(nr), Mask(j));
  }

  lemma SetBitExact(nr: nat, w: bv32, j: nat)
    requires nr < 32 && j < 32
    ensures Bit(SetBit(nr, w), j) <==> j == nr || Bit(w, j)
  {
    hide Bit, SetBit;
    if nr == j {
      SetBitSame(nr, w);
    } else {
      SetBitOther(nr, w, j);
    }
  }

  lemma ClearBitSame(nr: nat, w: bv32)
    requires nr < 32
    ensures !Bit(ClearBit(nr, w), nr)
  {
    hide Mask, Meets, AndNot;
    AndNotSelf(w, Mask(nr));
  }

  lemma ClearBitOther(nr: nat, w: bv32, j: nat)
    requires nr < 32 && j < 32 && nr != j
    ensures Bit(ClearBit(nr, w), j) <==> Bit(w, j)
  {
    hide Mask, Meets, AndNot;
    MaskMeets(nr, j);
    AndNotOther(w, Mask(nr), Mask(j));
  }

  lemma ClearBitExact(nr: nat, w: bv32, j: nat)
    requires nr < 32 && j < 32
    ensures Bit(ClearBit(nr, w), j) <==> j != nr && Bit(w, j)
  {
    hide Bit, ClearBit;
    if nr == j {
      ClearBitSame(nr, w);
    } else {
      ClearBitOther(nr, w, j);
    }
  }

  // ----- masked words

  predicate Covers(f: bv32, m: bv32) {
    f & m == m
  }

  lemma FromCovers(s: nat, j: nat)
    requires s <= j < 32
    ensures Covers(From(s), Mask(j))
  {
  }

  lemma FromMisses(s: nat, j: nat)
    requires j < s <= 32
    ensures !Meets(From(s), Mask(j))
  {
  }

  function AndFrom(w: bv32, s: nat): bv32
    requires s <= 32
  {
    w & From(s)
  }

  lemma AndFromKeeps(w: bv32, s: nat, j: nat)
    requires s <= j < 32
    ensures Bit(AndFrom(w, s), j) <==> Bit(w, j)
  {
    hide Mask, Meets, From, Covers;
    FromCovers(s, j);
    AndKeeps(w, From(s), Mask(j));
  }

  lemma AndFromDrops(w: bv32, s: nat, j: nat)
    requires j < s <= 32
    ensures !Bit(AndFrom(w, s), j)
  {
    hide Mask, Meets, From;
    FromMisses(s, j);
    AndDrops(w, From(s), Mask(j));
  }

  lemma AndFromExact(w: bv32, s: nat, j: nat)
    requires s <= 32 && j < 32
    ensures Bit(AndFrom(w, s), j) <==> j >= s && Bit(w, j)
  {
    hide Bit, AndFrom;
    if j >= s {
      AndFromKeeps(w, s, j);
    } else {
      AndFromDrops(w, s, j);
    }
  }

  /** The bits of w below i are clear. */
  predicate ClearBelow(w: bv32, i: nat)
    requires i < 32
  {
    w & (Mask(i) - 1) == 0
  }

  lemma BelowCovers(i: nat, j: nat)
    requires j < i < 32
    ensures Covers(Mask(i) - 1, Mask(j))
  {
  }

  lemma CoveredClear(w: bv32, f: bv32, m: bv32)
    requires w & f == 0 && Covers(f, m)
    ensures !Meets(w, m)
  {
  }

  lemma ClearBelowMeans(w: bv32, i: nat, j: nat)
    requires j < i < 32 && ClearBelow(w, i)
    ensures !Bit(w, j)
  {
    hide Mask, Covers, Meets;
    BelowCovers(i, j);
    CoveredClear(w, Mask(i) - 1, Mask(j));
  }

  lemma ClearBelowStep(w: bv32, i: nat)
    requires i < 31 && ClearBelow(w, i) && !Bit(w, i)
    ensures ClearBelow(w, i + 1)
  {
  }

  lemma ClearAll(w: bv32)
    requires ClearBelow(w, 31) && !Bit(w, 31)
    ensures w == 0
  {
  }

  lemma Lowest(w: bv32, i: nat) returns (k: nat)
    requires w != 0 && i < 32 && ClearBelow(w, i)
    ensures k < 32 && Bit(w, k) && ClearBelow(w, k)
    decreases 32 - i
  {
    hide ClearBelow, Bit;
    if Bit(w, i) {
      k := i;
    } else if i == 31 {
      ClearAll(w);
    } else {
      ClearBelowStep(w, i);
      k := Lowest(w, i + 1);
    }
  }

  lemma IsolateIsMask(w: bv32, k: nat)
    requires k < 32 && Bit(w, k) && ClearBelow(w, k)
    ensures w & -w == Mask(k)
  {
  }

  lemma LsBitOfMask(w: bv32, k: nat)
    requires k < 32 && w & -w == Mask(k)
    ensures LsBit(w) == k
  {
  }

  predicate IsLowestBit(w: bv32, r: int)
  {
    0 <= r < 32 && Bit(w, r) && forall j: nat | j < r :: !Bit(w, j)
  }

  lemma LsBitOf(w: bv32, k: nat)
    requires k < 32 && Bit(w, k) && ClearBelow(w, k)
    ensures LsBit(w) == k
  {
    hide ClearBelow, Bit, LsBit, Mask;
    IsolateIsMask(w, k);
    LsBitOfMask(w, k);
  }

  /** ls_bit is exact on every 32-bit word. */
  lemma LsBitExact(w: bv32)
    ensures w == 0 ==> LsBit(w) == -1
    ensures w != 0 ==> IsLowestBit(w, LsBit(w))
  {
    if w != 0 {
      assert ClearBelow(w, 0);
      hide ClearBelow, Bit, LsBit, Mask;
      var k := Lowest(w, 0);
      LsBitOf(w, k);
      forall j: nat | j < k
        ensures !Bit(w, j)
      {
        ClearBelowMeans(w, k, j);
      }
    }
  }

  function Pow2(n: nat): nat
    ensures Pow2(n) >= 1
  {
    if n == 0 then 1 else 2 * Pow2(n - 1)
  }

  lemma {:induction false} TableExact(x: nat)
    requires 0 < x < 256
    ensures 0 <= TABLE[x] < 8 && Pow2(TABLE[x]) <= x < Pow2(TABLE[x] + 1)
  {
    assert Pow2(2) == 4;
    assert Pow2(4) == 16;
    assert Pow2(6) == 64;
    assert Pow2(8) == 256;
  }

  lemma Pow2Add(m: nat, n: nat)
    ensures Pow2(m + n) == Pow2(m) * Pow2(n)
  {
    if m > 0 {
      Pow2Add(m - 1, n);
    }
  }

  lemma ScaleUp(x: nat, d: nat, lo: nat, hi: nat)
    requires d > 0 && lo <= x / d < hi
    ensures lo * d <= x < hi * d
  {
    var q := x / d;
    assert x == q * d + x % d;
    assert lo * d <= q * d;
    assert (q + 1) * d <= hi * d;
  }

  lemma Pow2Values()
    ensures Pow2(0) == 1 && Pow2(8) == 0x100 && Pow2(16) == 0x1_0000 && Pow2(24) == 0x100_0000
  {
    Pow2Add(8, 8);
    Pow2Add(8, 16);
  }

  lemma ScaledTable(x: nat, a: nat, d: nat)
    requires d == Pow2(a)
    requires 0 < x / d < 256
    ensures 0 <= TABLE[x / d] < 8
    ensures Pow2(TABLE[x / d] + a) <= x < Pow2(TABLE[x / d] + a + 1)
  {
    hide Pow2;
    var t := TABLE[x / d];
    TableExact(x / d);
    hide TABLE;
    Pow2Add(t, a);
    Pow2Add(t + 1, a);
    ScaleUp(x, d, Pow2(t), Pow2(t + 1));
  }

  /** ms_bit is exact on every 32-bit word. */
  lemma MsBitExact(x: Word)
    ensures x == 0 ==> MsBit(x) == -1
    ensures x != 0 ==> 0 <= MsBit(x) < 32 && Pow2(MsBit(x)) <= x < Pow2(MsBit(x) + 1)
  {
    hide Pow2;
    if x == 0 {
      assert TABLE[0] == -1;
    } else {
      hide TABLE;
      Pow2Values();
      if x <= 0xff {
        ScaledTable(x, 0, 1);
      } else if x <= 0xffff {
        ScaledTable(x, 8, 0x100);
      } else if x <= 0xffffff {
        ScaledTable(x, 16, 0x1_0000);
      } else {
        ScaledTable(x, 24, 0x100_0000);
      }
    }
  }
}
