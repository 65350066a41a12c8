/** The two-level size classes of tlsf.c.  A class is a pair (fl, sl); `Flat` numbers
    the 24 x 32 classes in the order of the sizes they hold. */
module SizeClasses {
  import opened Bits

  const SMALL_BLOCK := 128
  const MAX_SLI := 32
  const MAX_LOG2_SLI := 5
  const FLI_OFFSET := 6
  const REAL_FLI := 24
  const CLASSES := REAL_FLI * MAX_SLI

  /** The least size that no class holds. */
  const SIZE_LIMIT := 0x4000_0000

  /** The largest request that is served. */
  const MAX_REQUEST := 0x3F00_0000

  /** The largest request for which the sum of MAPPING_SEARCH stays below 2^32. */
  const MAX_SUM := 0xFC00_0000

  datatype SizeClass = SizeClass(fl: int, sl: int) {
    function Flat(): int {
      MAX_SLI * fl + sl
    }

    predicate InTable() {
      0 <= fl < REAL_FLI && 0 <= sl < MAX_SLI
    }
  }

  /** Shifts of unsigned numbers that lose no high bits. */
  function Shl(x: nat, k: nat): nat {
    x * Pow2(k)
  }

  function Shr(x: nat, k: nat): nat {
    Quotient(x, Pow2(k))
  }

  function Quotient(x: nat, d: nat): nat
    requires d > 0
  {
    x / d
  }

  function MappingInsert(r: Word): SizeClass {
    if r < SMALL_BLOCK then
      SizeClass(0, r / (SMALL_BLOCK / MAX_SLI))
    else
      BigLog(r);
      var fl := MsBit(r);
      SizeClass(fl - FLI_OFFSET, Shr(r, fl - MAX_LOG2_SLI) - MAX_SLI)
  }

  datatype Rounded = Rounded(r: int, cls: SizeClass)

  /** The request and its slack, added in 32 bits. */
  function SearchSum(r: Word, k: nat): Word {
    (r + Shl(1, k) - 1) % 0x1_0000_0000
  }

  /** The class that a sum names.  A sum below 32, which has wrapped, is shifted by a negative number of bits: whatever
      that gives, the row is negative. */
  function SearchClass(s: Word): SizeClass {
    var fl := MsBit(s);
    SizeClass(fl - FLI_OFFSET, if fl < MAX_LOG2_SLI then -MAX_SLI else Shr(s, fl - MAX_LOG2_SLI) - MAX_SLI)
  }

  /** Rounds a request up to the least size of a class, and names that class. */
  function MappingSearch(r: Word): Rounded {
    if r < SMALL_BLOCK then
      Rounded(r, SizeClass(0, r / (SMALL_BLOCK / MAX_SLI)))
    else
      BigLog(r);
      var k := MsBit(r) - MAX_LOG2_SLI;
      var s := SearchSum(r, k);
      Rounded(Shl(Shr(s, k), k), SearchClass(s))
  }

  /** The least size of class c; ClassMin(CLASSES) bounds every size. */
  function ClassMin(c: nat): nat {
    if c < MAX_SLI then 4 * c else Shl(MAX_SLI + c % MAX_SLI, c / MAX_SLI + 1)
  }

  // ----- shifts

  lemma ShlStrict(a: nat, b: nat, k: nat)
    ensures a <= b ==> Shl(a, k) <= Shl(b, k)
    ensures a < b ==> Shl(a, k) + Shl(1, k) <= Shl(b, k)
  {
    if a < b {
      MulMonotone(a + 1, b, Pow2(k));
    }
  }

  lemma MulMonotone(a: nat, b: nat, d: nat)
    requires a <= b
    ensures a * d <= b * d
  {
  }

  lemma ShlSum(a: nat, b: nat, k: nat)
    ensures Shl(a + b, k) == Shl(a, k) + Shl(b, k)
  {
  }

  lemma ShlNext(a: nat, k: nat)
    ensures Shl(a, k + 1) == Shl(2 * a, k)
  {
  }

  /** A right shift is the floor of the division. */
  lemma ShrFloor(x: nat, k: nat)
    ensures Shl(Shr(x, k), k) <= x < Shl(Shr(x, k) + 1, k)
  {
    var d, q := Pow2(k), x / Pow2(k);
    assert x == q * d + x % d;
  }

  lemma ShrBetween(x: nat, k: nat, lo: nat, hi: nat)
    requires Shl(lo, k) <= x < Shl(hi, k)
    ensures lo <= Shr(x, k) < hi
  {
    hide Shl, Shr;
    ShrFloor(x, k);
    ShlStrict(Shr(x, k) + 1, lo, k);
    ShlStrict(hi, Shr(x, k), k);
  }

  // ----- logarithms

  lemma {:induction false} Pow2Grows(m: nat, n: nat)
    requires m < n
    ensures 2 * Pow2(m) <= Pow2(n)
  {
    if m + 1 < n {
      Pow2Grows(m, n - 1);
    }
  }

  lemma LogUnique(x: Word, k: nat)
    requires Pow2(k) <= x < Pow2(k + 1)
    ensures MsBit(x) == k
  {
    MsBitExact(x);
    var m := MsBit(x);
    if m < k {
      Pow2Grows(m, k);
    } else if k < m {
      Pow2Grows(k, m);
    }
  }

  lemma ShlOfPow2(m: nat, k: nat)
    ensures Shl(Pow2(m), k) == Pow2(m + k)
  {
    Pow2Add(m, k);
  }

  lemma BigLog(x: Word)
    requires x >= 64
    ensures 6 <= MsBit(x) < 32 && (x >= SMALL_BLOCK ==> 7 <= MsBit(x))
    ensures Shl(32, MsBit(x) - 5) <= x < Shl(64, MsBit(x) - 5)
  {
    hide Pow2, MsBit;
    MsBitExact(x);
    var m := MsBit(x);
    if m < 6 {
      Pow2Grows(m + 1, 7);
    }
    Pow2Small();
    if m >= 6 {
      ShlOfPow2(5, m - 5);
      ShlOfPow2(6, m - 5);
    }
  }

  lemma Pow2Small()
    ensures Pow2(5) == 32 && Pow2(6) == 64 && Pow2(7) == 128
  {
  }

  lemma BigLogIs(x: Word, k: nat)
    requires Shl(32, k) <= x < Shl(64, k)
    ensures MsBit(x) == k + 5
  {
    assert Pow2(5) == 32 && Pow2(6) == 64;
    hide Pow2;
    ShlOfPow2(5, k);
    ShlOfPow2(6, k);
    LogUnique(x, k + 5);
  }

  lemma LogOfSize(s: Word)
    requires 64 <= s < SIZE_LIMIT
    ensures 6 <= MsBit(s) < 30
  {
    BigLog(s);
    MsBitExact(s);
    if 30 < MsBit(s) {
      Pow2Grows(30, MsBit(s));
    }
    Pow2Values();
    Pow2Add(6, 24);
    assert Pow2(6) == 64;
  }

  // ----- every size has exactly one class

  lemma ClassMinAt(fl: nat, sl: nat)
    requires 1 <= fl && sl < MAX_SLI
    ensures ClassMin(MAX_SLI * fl + sl) == Shl(MAX_SLI + sl, fl + 1)
    ensures ClassMin(MAX_SLI * fl + sl + 1) == Shl(MAX_SLI + sl + 1, fl + 1)
  {
    var c := MAX_SLI * fl + sl;
    assert c / MAX_SLI == fl && c % MAX_SLI == sl;
    if sl + 1 < MAX_SLI {
      assert (c + 1) / MAX_SLI == fl && (c + 1) % MAX_SLI == sl + 1;
    } else {
      assert (c + 1) / MAX_SLI == fl + 1 && (c + 1) % MAX_SLI == 0;
      ShlNext(32, fl + 1);
    }
  }

  lemma ClassMinEnds()
    ensures ClassMin(0) == 0 && ClassMin(MAX_SLI) == SMALL_BLOCK && ClassMin(CLASSES) == SIZE_LIMIT
  {
    assert Pow2(1) == 2 && Pow2(2) == 4;
    Pow2Values();
    Pow2Add(1, 24);
  }

  /** MAPPING_INSERT names the class whose interval holds the size. */
  lemma InsertExact(s: Word)
    requires s < SIZE_LIMIT
    ensures MappingInsert(s).InTable()
    ensures 0 <= MappingInsert(s).Flat() < CLASSES
    ensures ClassMin(MappingInsert(s).Flat()) <= s < ClassMin(MappingInsert(s).Flat() + 1)
  {
    ClassMinEnds();
    if s >= SMALL_BLOCK {
      hide ClassMin, Shl, Shr, Pow2;
      BigLog(s);
      LogOfSize(s);
      var k := MsBit(s) - 5;
      ShrBetween(s, k, 32, 64);
      ShrFloor(s, k);
      ClassMinAt(k - 1, Shr(s, k) - 32);
    }
  }

  lemma ClassMinStep(c: nat)
    ensures ClassMin(c) < ClassMin(c + 1)
  {
    if c < MAX_SLI {
      ClassMinEnds();
    } else {
      ClassMinAt(c / MAX_SLI, c % MAX_SLI);
    }
  }

  lemma {:induction false} ClassMinMonotone(c: nat, d: nat)
    requires c <= d
    ensures ClassMin(c) <= ClassMin(d)
  {
    if c < d {
      ClassMinMonotone(c, d - 1);
      ClassMinStep(d - 1);
    }
  }

  /** The classes partition [0, 2^30): a size lies in the interval of its own class and of no other. */
  lemma ClassesPartition(s: Word, c: nat)
    requires s < SIZE_LIMIT
    ensures ClassMin(0) == 0 && ClassMin(CLASSES) == SIZE_LIMIT
    ensures ClassMin(c) <= s < ClassMin(c + 1) <==> c == MappingInsert(s).Flat()
  {
    ClassMinEnds();
    hide ClassMin;
    InsertExact(s);
    var k := MappingInsert(s).Flat();
    if c < k {
      ClassMinMonotone(c + 1, k);
    } else if k < c {
      ClassMinMonotone(k + 1, c);
    }
  }

  /** MAPPING_INSERT is monotone: a size reaches the minimum of class c just when its class is c or later. */
  lemma ClassOrder(s: Word, c: nat)
    requires s < SIZE_LIMIT
    ensures s >= ClassMin(c) <==> MappingInsert(s).Flat() >= c
  {
    hide ClassMin;
    InsertExact(s);
    var k := MappingInsert(s).Flat();
    if k < c {
      ClassMinMonotone(k + 1, c);
    } else {
      ClassMinMonotone(c, k);
    }
  }

  // ----- the rounding of MAPPING_SEARCH

  lemma SlackBound(r: Word)
    requires r >= SMALL_BLOCK
    ensures 2 <= MsBit(r) - 5 <= 26 && 1 <= Shl(1, MsBit(r) - 5) <= 0x400_0000
    ensures r > MAX_SUM ==> Shl(1, MsBit(r) - 5) == 0x400_0000
  {
    BigLog(r);
    Pow2Values();
    Pow2Add(2, 24);
    assert Pow2(2) == 4;
    hide Pow2, MsBit;
    var k := MsBit(r) - 5;
    if k < 26 {
      Pow2Grows(k, 26);
    }
  }

  /** s is the request plus its slack; it may carry into the next power of two. */
  lemma SearchBounds(r: Word, k: int, s: nat)
    requires SMALL_BLOCK <= r <= MAX_SUM
    requires k == MsBit(r) - 5 && k >= 0 && s == r + Shl(1, k) - 1
    ensures 2 <= k && Shl(1, k) >= 1 && 32 * Shl(1, k) <= r
    ensures Shl(32, k) <= s < Shl(65, k) && s < 0x1_0000_0000 && s == SearchSum(r, k)
    ensures 32 <= Shr(s, k) <= 64
    ensures s < Shl(64, k) <==> Shr(s, k) < 64
    ensures r <= Shl(Shr(s, k), k) < r + Shl(1, k)
  {
    BigLog(r);
    SlackBound(r);
    assert Shl(32, k) == 32 * Shl(1, k);
    hide Shl, Shr, Pow2;
    ShlSum(64, 1, k);
    ShrBetween(s, k, 32, 65);
    ShrFloor(s, k);
    ShlSum(Shr(s, k), 1, k);
    if Shr(s, k) < 64 {
      ShlStrict(Shr(s, k), 64, k);
    }
  }

  lemma SumClass(s: Word, k: nat)
    requires Shl(32, k) <= s < Shl(65, k) && 32 <= Shr(s, k) <= 64
    requires s < Shl(64, k) <==> Shr(s, k) < 64
    ensures Shr(s, k) < 64 ==> SearchClass(s) == SizeClass(k - 1, Shr(s, k) - 32)
    ensures Shr(s, k) == 64 ==> SearchClass(s) == SizeClass(k, 0)
  {
    hide Shl, Shr, Pow2, MsBit;
    if Shr(s, k) < 64 {
      BigLogIs(s, k);
    } else {
      ShlNext(32, k);
      ShlNext(33, k);
      ShlNext(64, k);
      ShlStrict(65, 66, k);
      ShlStrict(65, 128, k);
      BigLogIs(s, k + 1);
      ShrBetween(s, k + 1, 32, 33);
    }
  }

  lemma SearchValue(r: Word, k: int, s: nat)
    requires SMALL_BLOCK <= r <= MAX_SUM
    requires k == MsBit(r) - 5 && k >= 0 && s == r + Shl(1, k) - 1
    ensures 2 <= k && MappingSearch(r).r == Shl(Shr(s, k), k)
    ensures Shr(s, k) < 64 ==> MappingSearch(r).cls == SizeClass(k - 1, Shr(s, k) - 32)
    ensures Shr(s, k) == 64 ==> MappingSearch(r).cls == SizeClass(k, 0)
  {
    hide Shl, Shr, Pow2, MsBit, SearchSum, SearchClass;
    SearchBounds(r, k, s);
    SumClass(s, k);
  }

  /** A granule is 4 or a multiple of 8, so rounding keeps a multiple of 8. */
  lemma SearchAligned(r: Word)
    requires SMALL_BLOCK <= r <= MAX_SUM && r % 8 == 0
    ensures MappingSearch(r).r % 8 == 0
  {
    hide Pow2, Shr, Shl;
    BigLog(r);
    var k := MsBit(r) - 5;
    var s := r + Shl(1, k) - 1;
    SearchValue(r, k, s);
    SearchBounds(r, k, s);
    hide MappingSearch;
    var q := Shr(s, k);
    if k == 2 {
      assert Shl(q, 2) == 4 * q && Shl(1, 2) == 4 by { Shl2(q); Shl2(1); }
    } else {
      Shl3(q, k);
    }
  }

  lemma Shl2(q: nat)
    ensures Shl(q, 2) == 4 * q
  {
    assert Pow2(2) == 4;
  }

  lemma Shl3(q: nat, k: nat)
    requires k >= 3
    ensures Shl(q, k) % 8 == 0
  {
    assert Pow2(3) == 8;
    Pow2Add(3, k - 3);
    assert Shl(q, k) == 8 * (q * Pow2(k - 3));
  }

  lemma SearchBig(r: Word)
    requires SMALL_BLOCK <= r <= MAX_SUM
    ensures var o := MappingSearch(r);
      && 0 <= o.cls.sl < MAX_SLI && 1 <= o.cls.fl
      && o.r == Shl(MAX_SLI + o.cls.sl, o.cls.fl + 1)
      && r <= o.r && 32 * (o.r - r) <= r
  {
    BigLog(r);
    hide Pow2, Shr, Shl;
    var k := MsBit(r) - 5;
    var s := r + Shl(1, k) - 1;
    SearchBounds(r, k, s);
    SearchValue(r, k, s);
    hide MappingSearch;
    if Shr(s, k) == 64 {
      ShlNext(32, k);
    }
  }

  /** MAPPING_SEARCH rounds r up by at most 1/32 to the least size of the class it names. */
  lemma SearchExact(r: Word)
    requires r <= MAX_SUM && r % 8 == 0
    ensures var o := MappingSearch(r);
      && 0 <= o.cls.sl < MAX_SLI && 0 <= o.cls.fl
      && o.r == ClassMin(o.cls.Flat())
      && r <= o.r && 32 * (o.r - r) <= r && o.r % 8 == 0
  {
    if r >= SMALL_BLOCK {
      SearchBig(r);
      SearchAligned(r);
      hide ClassMin, MappingSearch, Shl;
      ClassMinAt(MappingSearch(r).cls.fl, MappingSearch(r).cls.sl);
    }
  }

  lemma SearchPadded(r: Word)
    requires SMALL_BLOCK <= r <= MAX_SUM && MappingSearch(r).r > r
    ensures var c := MappingSearch(r).cls.Flat(); c > 0 && ClassMin(c - 1) < r
  {
    hide ClassMin, Shl, Shr, Pow2;
    BigLog(r);
    var k := MsBit(r) - 5;
    var s := r + Shl(1, k) - 1;
    SearchBounds(r, k, s);
    SearchValue(r, k, s);
    hide MappingSearch;
    var q := Shr(s, k);
    ShlStrict(q, 32, k);
    ShlSum(q - 1, 1, k);
    ClassMinAt(k - 1, q - 33);
    assert MappingSearch(r).cls.Flat() == 32 * (k - 1) + (q - 33) + 1;
  }

  /** No earlier class minimum reaches the request. */
  lemma SearchLeast(r: Word)
    requires r <= MAX_SUM && r % 8 == 0
    ensures var c := MappingSearch(r).cls.Flat(); c > 0 ==> ClassMin(c - 1) < r
  {
    hide MappingSearch, ClassMin;
    SearchExact(r);
    if MappingSearch(r).r != r {
      if r >= SMALL_BLOCK {
        SearchPadded(r);
      } else {
        SmallUnpadded(r);
      }
    } else {
      var c := MappingSearch(r).cls.Flat();
      if c > 0 {
        ClassMinStep(c - 1);
      }
    }
  }

  lemma SmallUnpadded(r: Word)
    requires r < SMALL_BLOCK
    ensures MappingSearch(r).r == r
  {
  }

  lemma WrappedSum(r: Word, k: nat)
    requires r > MAX_SUM && Shl(1, k) == 0x400_0000
    ensures SearchSum(r, k) == r - MAX_SUM - 1 && Shr(r - MAX_SUM - 1, k) == 0
  {
    hide Shl, Shr;
    assert Shl(0, k) == 0 by {
      ShlSum(0, 0, k);
    }
    ShrBetween(r - MAX_SUM - 1, k, 0, 1);
  }

  /** Beyond MAX_SUM the sum has wrapped, and the rounded request is 0. */
  lemma SearchWraps(r: Word)
    requires r > MAX_SUM
    ensures MappingSearch(r) == Rounded(0, SearchClass(r - MAX_SUM - 1))
  {
    SlackBound(r);
    var k := MsBit(r) - 5;
    WrappedSum(r, k);
    assert Shl(0, k) == 0;
    hide SearchClass, Pow2, MsBit, Shr, Shl, SearchSum;
  }

  lemma SumInTable(s: Word)
    requires s < SIZE_LIMIT
    ensures SearchClass(s).InTable() <==> s >= 64
  {
    hide Shl, Shr, Pow2, MsBit;
    MsBitExact(s);
    Pow2Small();
    if s >= 64 {
      BigLog(s);
      LogOfSize(s);
      ShrBetween(s, MsBit(s) - 5, 32, 64);
    } else if s > 0 && MsBit(s) >= 6 {
      Pow2Grows(5, MsBit(s));
    }
  }

  /** The class named lies inside the tables just when the request does not exceed MAX_REQUEST, or has wrapped to a sum of
      at least 64. */
  lemma SearchInTable(r: Word)
    requires r % 8 == 0
    ensures MappingSearch(r).cls.InTable() <==> r <= MAX_REQUEST || r >= MAX_SUM + 72
    ensures r <= MAX_REQUEST ==> MappingSearch(r).r < SIZE_LIMIT
  {
    hide MappingSearch, SearchClass;
    if r > MAX_SUM {
      SearchWraps(r);
      SumInTable(r - MAX_SUM - 1);
    } else {
      SumsInTable(r);
    }
  }

  lemma SumsInTable(r: Word)
    requires r <= MAX_SUM && r % 8 == 0
    ensures MappingSearch(r).cls.InTable() <==> r <= MAX_REQUEST
    ensures r <= MAX_REQUEST ==> MappingSearch(r).r < SIZE_LIMIT
  {
    SearchExact(r);
    SearchLeast(r);
    var c := MappingSearch(r).cls.Flat();
    LastClass();
    hide ClassMin, MappingSearch;
    if c < CLASSES {
      ClassMinMonotone(c, CLASSES - 1);
    } else {
      ClassMinMonotone(CLASSES - 1, c - 1);
    }
  }

  lemma SearchOverruns()
    ensures MappingSearch(0x3F00_0008) == Rounded(SIZE_LIMIT, SizeClass(REAL_FLI, 0))
  {
    ShlValues();
    hide Shl, Shr, MappingSearch, Pow2, MsBit;
    BigLogIs(0x3F00_0008, 24);
    ShrBetween(0x4000_0007, 24, 64, 65);
    SearchValue(0x3F00_0008, 24, 0x4000_0007);
  }

  lemma SearchWrapped()
    ensures MappingSearch(0xFFFF_FFF0) == Rounded(0, SizeClass(19, 31))
  {
    SearchWraps(0xFFFF_FFF0);
    ShlValues();
    hide Shl, Shr, MappingSearch, Pow2, MsBit;
    BigLogIs(0x03FF_FFEF, 20);
    ShrBetween(0x03FF_FFEF, 20, 63, 64);
  }

  lemma ShlValues()
    ensures forall x: nat :: Shl(x, 20) == 0x10_0000 * x && Shl(x, 24) == 0x100_0000 * x
  {
    Pow2Values();
    Pow2Add(4, 16);
    assert Pow2(4) == 16;
  }

  lemma LastClass()
    ensures ClassMin(CLASSES - 1) == MAX_REQUEST
  {
    Pow2Values();
    ClassMinAt(23, 31);
    Pow2Add(0, 24);
  }
}
