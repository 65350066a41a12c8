/** strcmp.S and strncmp.S: comparing strings a word at a time. */
module StringCompare {

  import opened MachineWords

  const ONES: bv32 := 0x0101_0101

  // ----- what is to be computed

  /** The first k characters of the two strings are equal and not NUL. */
  ghost predicate SameFor(mem: Memory, s1: nat, s2: nat, k: nat) {
    && s1 + k <= |mem| && s2 + k <= |mem|
    && forall j | s1 <= j < s1 + k :: mem[j] != 0 && mem[j] == mem[j - s1 + s2]
  }

  /** Position k is the first where the strings differ or end. */
  ghost predicate StopsAt(mem: Memory, s1: nat, s2: nat, k: nat) {
    && SameFor(mem, s1, s2, k) && s1 + k < |mem| && s2 + k < |mem|
    && (mem[s1 + k] != mem[s2 + k] || mem[s1 + k] == 0)
  }

  /** r is the difference, as unsigned values, of the characters at the place the comparison stops. */
  ghost predicate Compared(mem: Memory, s1: nat, s2: nat, k: nat, r: int) {
    StopsAt(mem, s1, s2, k) && r == mem[s1 + k] as int - mem[s2 + k] as int
  }

  ghost predicate IsString(mem: Memory, s: nat) {
    exists e :: s <= e < |mem| && mem[e] == 0
  }

  /** There are n bytes at s, or a string. */
  ghost predicate Readable(mem: Memory, s: nat, n: nat) {
    s + n <= |mem| || IsString(mem, s)
  }

  lemma SameThere(mem: Memory, s1: nat, s2: nat, k: nat, i: nat)
    requires SameFor(mem, s1, s2, k) && i < k
    ensures mem[s1 + i] != 0 && mem[s1 + i] == mem[s2 + i]
  {
  }

  /** At most one answer is right. */
  lemma OneAnswer(mem: Memory, s1: nat, s2: nat, k: nat, r: int, k': nat, r': int)
    requires Compared(mem, s1, s2, k, r) && Compared(mem, s1, s2, k', r')
    ensures k == k' && r == r'
  {
    if k < k' {
      SameThere(mem, s1, s2, k', k);
    } else if k' < k {
      SameThere(mem, s1, s2, k, k');
    }
  }

  // ----- words in memory

  /** sub r2, w, lr; bic r2, r2, w; tst r2, lr, lsl #7 */
  predicate NulTest(w: bv32) {
    ((w - ONES) & !w) & (ONES << 7) != 0
  }

  lemma NulTestPack(b0: bv8, b1: bv8, b2: bv8, b3: bv8)
    ensures NulTest(Pack(b0, b1, b2, b3)) <==> b0 == 0 || b1 == 0 || b2 == 0 || b3 == 0
  {
  }

  ghost predicate NulIn(mem: Memory, lo: nat, hi: nat)
    requires hi <= |mem|
  {
    exists j | lo <= j < hi :: mem[j] == 0
  }

  lemma NulInWord(mem: Memory, a: nat, rem: nat)
    requires rem < 4 && a + 4 <= |mem|
    ensures NulIn(mem, a + rem, a + 4) <==>
            (rem == 0 && mem[a] == 0) || (rem <= 1 && mem[a + 1] == 0) || (rem <= 2 && mem[a + 2] == 0) || mem[a + 3] == 0
  {
  }

  /** The three-instruction test finds a zero byte exactly when the word has one. */
  lemma NulTestExact(mem: Memory, a: nat)
    requires a + 4 <= |mem|
    ensures NulTest(Word(mem, a)) <==> NulIn(mem, a, a + 4)
  {
    NulInWord(mem, a, 0);
    NulTestPack(mem[a], mem[a + 1], mem[a + 2], mem[a + 3]);
    hide Pack, NulTest;
  }

  /** lr, lsr r5: a 1 in each of the rem bytes that come before the string */
  function Before(rem: nat): bv32
    requires rem < 4
  {
    if rem == 0 then 0 else if rem == 1 then ONES >> 24 else if rem == 2 then ONES >> 16 else ONES >> 8
  }

  /** orr r6, r6, lr, lsr r5 */
  function Mask(w: bv32, rem: nat): bv32
    requires rem < 4
  {
    w | Before(rem)
  }

  lemma MaskedBy0(w: bv32)
    ensures Mask(w, 0) == w
  {
  }

  lemma MaskedBy1(b0: bv8, b1: bv8, b2: bv8, b3: bv8)
    ensures var w := Mask(Pack(b0, b1, b2, b3), 1);
            (NulTest(w) <==> b1 == 0 || b2 == 0 || b3 == 0) && Lower(w, 1) == Lower(Pack(b0, b1, b2, b3), 1)
  {
  }

  lemma MaskedBy2(b0: bv8, b1: bv8, b2: bv8, b3: bv8)
    ensures var w := Mask(Pack(b0, b1, b2, b3), 2);
            (NulTest(w) <==> b2 == 0 || b3 == 0) && Lower(w, 2) == Lower(Pack(b0, b1, b2, b3), 2)
  {
  }

  lemma MaskedBy3(b0: bv8, b1: bv8, b2: bv8, b3: bv8)
    ensures var w := Mask(Pack(b0, b1, b2, b3), 3);
            (NulTest(w) <==> b3 == 0) && Lower(w, 3) == Lower(Pack(b0, b1, b2, b3), 3)
  {
  }

  /** With the bytes before the string masked, the first load is tested for the string's own bytes only. */
  lemma MaskedWord(mem: Memory, a: nat, rem: nat)
    requires rem < 4 && a + 4 <= |mem|
    ensures NulTest(Mask(Word(mem, a), rem)) <==> NulIn(mem, a + rem, a + 4)
    ensures Lower(Mask(Word(mem, a), rem), rem) == Lower(Word(mem, a), rem)
  {
    hide Pack, NulTest, Lower, Mask, NulIn;
    NulInWord(mem, a, rem);
    if rem == 0 {
      NulTestExact(mem, a);
      MaskedBy0(Word(mem, a));
    } else if rem == 1 {
      MaskedBy1(mem[a], mem[a + 1], mem[a + 2], mem[a + 3]);
    } else if rem == 2 {
      MaskedBy2(mem[a], mem[a + 1], mem[a + 2], mem[a + 3]);
    } else {
      MaskedBy3(mem[a], mem[a + 1], mem[a + 2], mem[a + 3]);
    }
  }

  lemma ShiftedBy1(p0: bv8, p1: bv8, p2: bv8, p3: bv8, q0: bv8, q1: bv8, q2: bv8, q3: bv8)
    ensures Join(Lower(Pack(p0, p1, p2, p3), 1), Pack(q0, q1, q2, q3), 1) == Pack(p1, p2, p3, q0)
  {
  }

  lemma ShiftedBy2(p0: bv8, p1: bv8, p2: bv8, p3: bv8, q0: bv8, q1: bv8, q2: bv8, q3: bv8)
    ensures Join(Lower(Pack(p0, p1, p2, p3), 2), Pack(q0, q1, q2, q3), 2) == Pack(p2, p3, q0, q1)
  {
  }

  lemma ShiftedBy3(p0: bv8, p1: bv8, p2: bv8, p3: bv8, q0: bv8, q1: bv8, q2: bv8, q3: bv8)
    ensures Join(Lower(Pack(p0, p1, p2, p3), 3), Pack(q0, q1, q2, q3), 3) == Pack(p3, q0, q1, q2)
  {
  }

  lemma ShiftedBy0(low: bv32, next: bv32)
    ensures Join(Lower(low, 0), next, 0) == low
  {
  }

  /** Two neighbouring aligned words, shifted together, are the word at the offset between them. */
  lemma ShiftedWord(mem: Memory, a: nat, rem: nat)
    requires rem < 4 && a + 8 <= |mem|
    ensures Join(Lower(Word(mem, a), rem), Word(mem, a + 4), rem) == Word(mem, a + rem)
  {
    hide Pack, Lower, Join;
    if rem == 0 {
      ShiftedBy0(Word(mem, a), Word(mem, a + 4));
    } else if rem == 1 {
      ShiftedBy1(mem[a], mem[a + 1], mem[a + 2], mem[a + 3], mem[a + 4], mem[a + 5], mem[a + 6], mem[a + 7]);
    } else if rem == 2 {
      ShiftedBy2(mem[a], mem[a + 1], mem[a + 2], mem[a + 3], mem[a + 4], mem[a + 5], mem[a + 6], mem[a + 7]);
    } else {
      ShiftedBy3(mem[a], mem[a + 1], mem[a + 2], mem[a + 3], mem[a + 4], mem[a + 5], mem[a + 6], mem[a + 7]);
    }
  }

  lemma SameWord(mem: Memory, a: nat, b: nat)
    requires a + 4 <= |mem| && b + 4 <= |mem| && Word(mem, a) == Word(mem, b)
    ensures forall j | a <= j < a + 4 :: mem[j] == mem[j - a + b]
  {
    PackInjective(mem[a], mem[a + 1], mem[a + 2], mem[a + 3], mem[b], mem[b + 1], mem[b + 2], mem[b + 3]);
  }

  /** The bytes of s that may be read reach beyond k. */
  ghost predicate Goes(mem: Memory, s: nat, n: nat, k: nat) {
    Readable(mem, s, n) && k < n && s + k <= |mem| && forall j | s <= j < s + k :: mem[j] != 0
  }

  /** Memory ends at a word boundary, so a word with one readable byte is readable. */
  lemma RestOfWord(mem: Memory, s: nat, n: nat, k: nat)
    requires Aligned(|mem|) && Goes(mem, s, n, k)
    ensures s + k < |mem| && s + k - Remainder(s + k) + 4 <= |mem|
  {
  }

  lemma BothGo(mem: Memory, s1: nat, s2: nat, n: nat, k: nat)
    requires SameFor(mem, s1, s2, k) && Readable(mem, s1, n) && Readable(mem, s2, n) && k < n
    ensures Goes(mem, s1, n, k) && Goes(mem, s2, n, k) && s1 + k < |mem| && s2 + k < |mem|
  {
    forall j | s2 <= j < s2 + k ensures mem[j] != 0 {
      SameThere(mem, s1, s2, k, j - s2);
    }
  }

  lemma StepSame(mem: Memory, s1: nat, s2: nat, k: nat)
    requires SameFor(mem, s1, s2, k) && s1 + k < |mem| && s2 + k < |mem| && mem[s1 + k] == mem[s2 + k] != 0
    ensures SameFor(mem, s1, s2, k + 1)
  {
  }

  lemma ExtendSame(mem: Memory, s1: nat, s2: nat, k: nat)
    requires SameFor(mem, s1, s2, k) && s1 + k + 4 <= |mem| && s2 + k + 4 <= |mem|
    requires Word(mem, s1 + k) == Word(mem, s2 + k) && !NulIn(mem, s2 + k, s2 + k + 4)
    ensures SameFor(mem, s1, s2, k + 4)
  {
    SameWord(mem, s1 + k, s2 + k);
    hide Pack;
    forall j | s1 <= j < s1 + k + 4 ensures mem[j] != 0 && mem[j] == mem[j - s1 + s2] {
      if j >= s1 + k {
        assert mem[j] == mem[j - (s1 + k) + (s2 + k)];
        assert j - (s1 + k) + (s2 + k) == j - s1 + s2;
        assert mem[j - s1 + s2] != 0;
      }
    }
  }

  // ----- strncmp

  /** The answer for at most n characters. */
  ghost predicate ComparedFor(mem: Memory, s1: nat, s2: nat, n: nat, r: int) {
    || (SameFor(mem, s1, s2, n) && r == 0)
    || exists k | 0 <= k < n :: Compared(mem, s1, s2, k, r)
  }

  /** L_byteCompareLoop of strncmp, entered after k equal characters with r2 more to compare. */
  method ByteCompare(mem: Memory, s1: nat, s2: nat, n: nat, r0: nat, r1: nat, r2: nat) returns (r: int)
    requires Readable(mem, s1, n) && Readable(mem, s2, n)
    requires Advanced(mem, s1, s2, n, r0, r1, r2)
    ensures ComparedFor(mem, s1, s2, n, r)
  {
    hide SameFor, Readable, Goes;
    var p: nat, q: nat, left: nat := r0, r1, r2;
    while true
      invariant Advanced(mem, s1, s2, n, p, q, left)
      decreases left
    {
      if left < 1 {
        return 0;
      }
      left := left - 1;
      BothGo(mem, s1, s2, n, p - s1);
      var r3, ip := mem[p], mem[q];
      p, q := p + 1, q + 1;
      if r3 < 1 || r3 != ip {
        assert Compared(mem, s1, s2, p - 1 - s1, r3 as int - ip as int);
        return r3 as int - ip as int;
      }
      StepSame(mem, s1, s2, p - 1 - s1);
    }
  }

  /** The pointers r0 and r1 and the count r2 have moved on together over equal characters. */
  ghost predicate Advanced(mem: Memory, s1: nat, s2: nat, n: nat, r0: nat, r1: nat, r2: nat) {
    s1 <= r0 && r1 == s2 + (r0 - s1) && r2 == n - (r0 - s1) && SameFor(mem, s1, s2, r0 - s1)
  }

  /** The word loop of strncmp, entered with s1 aligned; comes back with the pointers and the count unwound. */
  method SkipWords(mem: Memory, s1: nat, s2: nat, n: nat, p: nat, q: nat, left: nat)
    returns (r0: nat, r1: nat, r2: nat)
    requires Aligned(|mem|) && Readable(mem, s1, n) && Readable(mem, s2, n)
    requires Advanced(mem, s1, s2, n, p, q, left) && Aligned(p) && left >= 4
    ensures Advanced(mem, s1, s2, n, r0, r1, r2)
  {
    hide Readable, Goes, Word, NulTest, Mask, Lower, Join, NulIn, SameFor, Aligned, Remainder;
    // align s2 as well, keeping the bytes of its first word that are still to be compared in r5
    var rem := Remainder(q);
    r0, r1 := p, q - rem;
    var count: int := left - (4 - rem);
    BothGo(mem, s1, s2, n, r0 - s1);
    RestOfWord(mem, s2, n, r0 - s1);
    var r8 := Mask(Word(mem, r1), rem);
    MaskedWord(mem, r1, rem);
    NextAligned(r1);
    r1 := r1 + 4;
    var r5 := Lower(r8, rem);
    if !NulTest(r8) {
      while true
        invariant s1 <= r0 && Aligned(r0) && Aligned(r1) && 4 <= r1 <= |mem|
        invariant r1 - 4 + rem == s2 + (r0 - s1) && count + (4 - rem) == n - (r0 - s1) && count >= 0
        invariant SameFor(mem, s1, s2, r0 - s1)
        invariant r5 == Lower(Word(mem, r1 - 4), rem) && !NulIn(mem, r1 - 4 + rem, r1)
        decreases count
      {
        // if n < 4, stop before any more data is loaded
        count := count - 4;
        if count < 0 {
          break;
        }
        BothGo(mem, s1, s2, n, r0 - s1);
        RestOfWord(mem, s1, n, r0 - s1);
        NextWord(mem, s2, n, r0 - s1, r1);
        NextAligned(r0);
        NextAligned(r1);
        r8 := Word(mem, r1);
        r1 := r1 + 4;
        NulTestExact(mem, r1 - 4);
        var ip := Word(mem, r0);
        r0 := r0 + 4;
        var r4 := Join(r5, r8, rem);
        ShiftedWord(mem, r1 - 8, rem);
        r5 := Lower(r8, rem);
        if NulTest(r8) || ip != r4 {
          r0 := r0 - 4;
          r1 := r1 - 4;
          break;
        }
        WordStep(mem, s1, s2, r0 - 4 - s1, r1, rem);
      }
      count := count + 4;
    }
    r1 := r1 - (4 - rem);
    r2 := count + (4 - rem);
  }

  method Strncmp(mem: Memory, s1: nat, s2: nat, n: nat) returns (r: int)
    requires Aligned(|mem|) && Readable(mem, s1, n) && Readable(mem, s2, n)
    ensures ComparedFor(mem, s1, s2, n, r)
  {
    StartSame(mem, s1, s2, n);
    hide Readable, Goes, SameFor, Aligned, Remainder, IsString;
    if n < 16 {
      r := ByteCompare(mem, s1, s2, n, s1, s2, n);
      return;
    }
    // byte by byte until s1 is word aligned
    var r0: nat, r1: nat, r2: nat := s1, s2, n;
    while true
      invariant Advanced(mem, s1, s2, n, r0, r1, r2) && (r0 == s1 || r0 - s1 <= Remainder(r0))
      decreases r2
    {
      BothGo(mem, s1, s2, n, r0 - s1);
      var r3, ip := mem[r0], mem[r1];
      r0, r1, r2 := r0 + 1, r1 + 1, r2 - 1;
      if r3 < 1 || r3 != ip {
        assert Compared(mem, s1, s2, r0 - 1 - s1, r3 as int - ip as int);
        return r3 as int - ip as int;
      }
      StepSame(mem, s1, s2, r0 - 1 - s1);
      StepRemainder(r0 - 1);
      if Aligned(r0) {
        break;
      }
    }
    r0, r1, r2 := SkipWords(mem, s1, s2, n, r0, r1, r2);
    r := ByteCompare(mem, s1, s2, n, r0, r1, r2);
  }

  lemma StartSame(mem: Memory, s1: nat, s2: nat, n: nat)
    requires Readable(mem, s1, n) && Readable(mem, s2, n)
    ensures SameFor(mem, s1, s2, 0)
  {
  }

  /** No NUL up to the next word and more than a word still to compare: the next word is readable. */
  lemma NextWord(mem: Memory, s: nat, n: nat, k: nat, a: nat)
    requires Aligned(|mem|) && Goes(mem, s, n, k) && Aligned(a) && s + k <= a < s + n && a <= |mem|
    requires !NulIn(mem, s + k, a)
    ensures a + 4 <= |mem| && Goes(mem, s, n, a - s)
  {
    forall j | s <= j < a ensures mem[j] != 0 {
      if s + k <= j {
        assert mem[j] != 0;
      }
    }
    RestOfWord(mem, s, n, a - s);
  }

  /** Equal words without NUL: four more equal characters. */
  lemma WordStep(mem: Memory, s1: nat, s2: nat, k: nat, r1: nat, rem: nat)
    requires SameFor(mem, s1, s2, k) && rem < 4 && r1 >= 8 && r1 - 8 + rem == s2 + k && r1 <= |mem|
    requires s1 + k + 4 <= |mem| && !NulIn(mem, r1 - 8 + rem, r1 - 4) && !NulIn(mem, r1 - 4, r1)
    requires Word(mem, s1 + k) == Word(mem, r1 - 8 + rem)
    ensures SameFor(mem, s1, s2, k + 4) && !NulIn(mem, r1 - 4 + rem, r1)
  {
    hide Word, SameFor;
    assert !NulIn(mem, s2 + k, s2 + k + 4);
    ExtendSame(mem, s1, s2, k);
  }

  // ----- strcmp

  /** As Advanced, without a count. */
  ghost predicate Level(mem: Memory, s1: nat, s2: nat, r0: nat, r1: nat) {
    s1 <= r0 && r1 == s2 + (r0 - s1) && SameFor(mem, s1, s2, r0 - s1)
  }

  lemma StringsGo(mem: Memory, s1: nat, s2: nat, k: nat)
    requires IsString(mem, s1) && IsString(mem, s2) && SameFor(mem, s1, s2, k)
    ensures Goes(mem, s1, |mem| + 1, k) && Goes(mem, s2, |mem| + 1, k) && s1 + k < |mem| && s2 + k < |mem|
  {
    BothGo(mem, s1, s2, |mem| + 1, k);
  }

  /** The word loop of strcmp, entered with s1 aligned; comes back with the pointers unwound. */
  method SkipStringWords(mem: Memory, s1: nat, s2: nat, p: nat, q: nat) returns (r0: nat, r1: nat)
    requires Aligned(|mem|) && IsString(mem, s1) && IsString(mem, s2)
    requires Level(mem, s1, s2, p, q) && Aligned(p)
    ensures Level(mem, s1, s2, r0, r1)
  {
    hide IsString, Goes, Word, NulTest, Mask, Lower, Join, NulIn, SameFor, Aligned, Remainder;
    // align s2 as well, keeping the bytes of its first word that are still to be compared in r4
    var rem := Remainder(q);
    r0, r1 := p, q - rem;
    StringsGo(mem, s1, s2, r0 - s1);
    RestOfWord(mem, s2, |mem| + 1, r0 - s1);
    var r6 := Mask(Word(mem, r1), rem);
    MaskedWord(mem, r1, rem);
    NextAligned(r1);
    r1 := r1 + 4;
    var r4 := Lower(r6, rem);
    if !NulTest(r6) {
      while true
        invariant s1 <= r0 && Aligned(r0) && Aligned(r1) && 4 <= r1 <= |mem|
        invariant r1 - 4 + rem == s2 + (r0 - s1) && SameFor(mem, s1, s2, r0 - s1)
        invariant r4 == Lower(Word(mem, r1 - 4), rem) && !NulIn(mem, r1 - 4 + rem, r1)
        decreases |mem| - r1
      {
        StringsGo(mem, s1, s2, r0 - s1);
        RestOfWord(mem, s1, |mem| + 1, r0 - s1);
        NextWord(mem, s2, |mem| + 1, r0 - s1, r1);
        NextAligned(r0);
        NextAligned(r1);
        r6 := Word(mem, r1);
        r1 := r1 + 4;
        NulTestExact(mem, r1 - 4);
        var ip := Word(mem, r0);
        r0 := r0 + 4;
        var r3 := Join(r4, r6, rem);
        ShiftedWord(mem, r1 - 8, rem);
        r4 := Lower(r6, rem);
        if NulTest(r6) || ip != r3 {
          r0 := r0 - 4;
          r1 := r1 - 4;
          break;
        }
        WordStep(mem, s1, s2, r0 - 4 - s1, r1, rem);
      }
    }
    r1 := r1 - (4 - rem);
  }

  /** Load a character from each string; stop with their difference if they are unequal or NUL. */
  method CompareByte(mem: Memory, s1: nat, s2: nat, r0: nat, r1: nat) returns (stop: bool, r: int)
    requires IsString(mem, s1) && IsString(mem, s2) && Level(mem, s1, s2, r0, r1)
    ensures s1 <= r0
    ensures if stop then Compared(mem, s1, s2, r0 - s1, r) else Level(mem, s1, s2, r0 + 1, r1 + 1) && r0 < |mem|
  {
    hide IsString, Goes, SameFor;
    StringsGo(mem, s1, s2, r0 - s1);
    var r2, ip := mem[r0], mem[r1];
    stop, r := r2 < 1 || r2 != ip, r2 as int - ip as int;
    if !stop {
      StepSame(mem, s1, s2, r0 - s1);
    }
  }

  /** L_byteCompareLoop of strcmp */
  method ByteCompareStrings(mem: Memory, s1: nat, s2: nat, p: nat, q: nat) returns (r: int)
    requires IsString(mem, s1) && IsString(mem, s2) && Level(mem, s1, s2, p, q)
    ensures exists k :: Compared(mem, s1, s2, k, r)
  {
    hide IsString, Level, Compared;
    var r0: nat, r1: nat := p, q;
    var stop;
    while true
      invariant Level(mem, s1, s2, r0, r1)
      decreases |mem| - r0
    {
      stop, r := CompareByte(mem, s1, s2, r0, r1);
      if stop {
        return;
      }
      r0, r1 := r0 + 1, r1 + 1;
    }
  }

  method Strcmp(mem: Memory, s1: nat, s2: nat) returns (r: int)
    requires Aligned(|mem|) && IsString(mem, s1) && IsString(mem, s2)
    ensures exists k :: Compared(mem, s1, s2, k, r)
  {
    StartSame(mem, s1, s2, |mem| + 1);
    assert Level(mem, s1, s2, s1, s2);
    hide IsString, Level, Compared, Aligned;
    // byte by byte until s1 is word aligned
    var r0: nat, r1: nat := s1, s2;
    var stop;
    while true
      invariant Level(mem, s1, s2, r0, r1)
      decreases |mem| - r0
    {
      stop, r := CompareByte(mem, s1, s2, r0, r1);
      if stop {
        return;
      }
      r0, r1 := r0 + 1, r1 + 1;
      if Aligned(r0) {
        break;
      }
    }
    r0, r1 := SkipStringWords(mem, s1, s2, r0, r1);
    r := ByteCompareStrings(mem, s1, s2, r0, r1);
  }
}
