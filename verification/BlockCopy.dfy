/** bcopy.S: bcopy, memcpy and memmove. Each label is a method; the registers are r0 (to), r1 (from), r2 (count). */
module BlockCopy {
  import opened MachineWords

  /** Byte i of now after the k bytes at a have been replaced by those of s at p. */
  ghost function Want(now: Memory, a: nat, s: Memory, p: nat, k: nat, i: nat): bv8
    requires a + k <= |now| && p + k <= |s| && i < |now|
  {
    if a <= i < a + k then s[i - a + p] else now[i]
  }

  /** next is now with k bytes at a replaced by those of s at p. */
  ghost predicate Placed(now: Memory, next: Memory, a: nat, s: Memory, p: nat, k: nat) {
    && |next| == |now| && a + k <= |now| && p + k <= |s|
    && forall i | 0 <= i < |now| :: next[i] == Want(now, a, s, p, k, i)
  }

  /** now is s after n bytes have been moved from src to dst: section 7.21.2.2 of ISO C99. */
  ghost predicate Moved(s: Memory, now: Memory, dst: nat, src: nat, n: nat) {
    Placed(s, now, dst, s, src, n)
  }

  lemma MovedExact(s: Memory, now: Memory, dst: nat, src: nat, n: nat)
    requires Moved(s, now, dst, src, n)
    ensures now == s[..dst] + s[src..src + n] + s[dst + n..]
  {
    var want := s[..dst] + s[src..src + n] + s[dst + n..];
    assert |want| == |s|;
    forall i | 0 <= i < |s| ensures now[i] == want[i] {
      PlacedAt(s, now, dst, s, src, n, i);
      hide Placed;
      if i < dst {
      } else if i < dst + n {
        assert want[i] == s[src..src + n][i - dst];
      } else {
        assert want[i] == s[dst + n..][i - (dst + n)];
      }
    }
  }

  lemma PlacedAt(now: Memory, next: Memory, a: nat, s: Memory, p: nat, k: nat, i: nat)
    requires Placed(now, next, a, s, p, k) && i < |now|
    ensures |next| == |now| && a + k <= |now| && p + k <= |s|
    ensures next[i] == Want(now, a, s, p, k, i)
  {
  }

  lemma PlacedChain(m0: Memory, m1: Memory, m2: Memory, a: nat, s: Memory, p: nat, k1: nat, k2: nat)
    requires Placed(m0, m1, a, s, p, k1) && Placed(m1, m2, a + k1, s, p + k1, k2)
    ensures Placed(m0, m2, a, s, p, k1 + k2)
  {
  }

  // ----- a copy in progress

  /** The lowest n - r2 bytes have been moved, and nothing still to be moved has been overwritten. */
  ghost predicate Forward(s: Memory, now: Memory, dst: nat, src: nat, n: nat, r0: nat, r1: nat, r2: nat) {
    && (dst <= src || src + n <= dst) && dst + n <= |s| && src + n <= |s|
    && r2 <= n && r0 == dst + (n - r2) && r1 == src + (n - r2)
    && Moved(s, now, dst, src, n - r2)
  }

  /** The highest n - r2 bytes have been moved. */
  ghost predicate Backward(s: Memory, now: Memory, dst: nat, src: nat, n: nat, r0: nat, r1: nat, r2: nat) {
    && src <= dst && dst + n <= |s| && src + n <= |s|
    && r2 <= n && r0 == dst + r2 && r1 == src + r2
    && Moved(s, now, dst + r2, src + r2, n - r2)
  }

  lemma MovedMore(s: Memory, now: Memory, next: Memory, a: nat, p: nat, k: nat, m: nat, i: nat)
    requires Moved(s, now, a, p, k) && Moved(now, next, a + k, p + k, m) && (a <= p || p + k + m <= a) && i < |s|
    ensures |next| == |s| && a + k + m <= |s| && p + k + m <= |s|
    ensures next[i] == Want(s, a, s, p, k + m, i)
  {
    hide Placed;
    PlacedSizes(now, next, a + k, now, p + k, m);
    PlacedSizes(s, now, a, s, p, k);
    PlacedAt(now, next, a + k, now, p + k, m, i);
    PlacedAt(s, now, a, s, p, k, if a + k <= i < a + k + m then i - a + p else i);
  }

  lemma MovedBelow(s: Memory, now: Memory, next: Memory, a: nat, p: nat, k: nat, m: nat, i: nat)
    requires Moved(s, now, a + m, p + m, k) && Moved(now, next, a, p, m) && p <= a && i < |s|
    ensures |next| == |s| && a + m + k <= |s| && p + m + k <= |s|
    ensures next[i] == Want(s, a, s, p, m + k, i)
  {
    hide Placed;
    PlacedSizes(now, next, a, now, p, m);
    PlacedSizes(s, now, a + m, s, p + m, k);
    PlacedAt(now, next, a, now, p, m, i);
    PlacedAt(s, now, a + m, s, p + m, k, if a <= i < a + m then i - a + p else i);
  }

  lemma ForwardStep(s: Memory, now: Memory, next: Memory, dst: nat, src: nat, n: nat, r0: nat, r1: nat, r2: nat, m: nat)
    requires Forward(s, now, dst, src, n, r0, r1, r2) && m <= r2 && Moved(now, next, r0, r1, m)
    ensures Forward(s, next, dst, src, n, r0 + m, r1 + m, r2 - m)
  {
    hide Placed, Want;
    var k := n - r2;
    PlacedSizes(now, next, r0, now, r1, m);
    PlacedSizes(s, now, dst, s, src, k);
    forall i | 0 <= i < |s| ensures next[i] == Want(s, dst, s, src, k + m, i) {
      MovedMore(s, now, next, dst, src, k, m, i);
    }
    IsPlaced(s, next, dst, s, src, k + m);
  }

  lemma BackwardStep(s: Memory, now: Memory, next: Memory, dst: nat, src: nat, n: nat, r0: nat, r1: nat, r2: nat, m: nat)
    requires Backward(s, now, dst, src, n, r0, r1, r2) && m <= r2 && Moved(now, next, r0 - m, r1 - m, m)
    ensures Backward(s, next, dst, src, n, r0 - m, r1 - m, r2 - m)
  {
    hide Placed, Want;
    var a, p, k := r0 - m, r1 - m, n - r2;
    PlacedSizes(now, next, a, now, p, m);
    PlacedSizes(s, now, r0, s, r1, k);
    forall i | 0 <= i < |s| ensures next[i] == Want(s, a, s, p, m + k, i) {
      MovedBelow(s, now, next, a, p, k, m, i);
    }
    IsPlaced(s, next, a, s, p, m + k);
  }

  lemma PlacedSizes(now: Memory, next: Memory, a: nat, s: Memory, p: nat, k: nat)
    requires Placed(now, next, a, s, p, k)
    ensures |next| == |now| && a + k <= |now| && p + k <= |s|
  {
  }

  lemma IsPlaced(now: Memory, next: Memory, a: nat, s: Memory, p: nat, k: nat)
    requires |next| == |now| && a + k <= |now| && p + k <= |s|
    requires forall i | 0 <= i < |now| :: next[i] == Want(now, a, s, p, k, i)
    ensures Placed(now, next, a, s, p, k)
  {
  }

  // ----- loads and stores

  /** ldmia of n registers; words are only loaded from word boundaries. */
  method LoadWords(mem: array<bv8>, a: nat, n: nat) returns (regs: seq<bv32>)
    requires Aligned(a) && a + 4 * n <= mem.Length
    ensures Loaded(regs, mem[..], a) && |regs| == n
  {
    regs := [];
    var i := 0;
    while i < n
      invariant 0 <= i <= n && |regs| == i && Loaded(regs, mem[..], a)
    {
      regs := regs + [Word(mem[..], a + 4 * i)];
      i := i + 1;
    }
  }

  ghost predicate Loaded(regs: seq<bv32>, s: Memory, p: nat) {
    p + 4 * |regs| <= |s| && forall i | 0 <= i < |regs| :: regs[i] == Word(s, p + 4 * i)
  }

  predicate HalfAligned(a: nat) {
    a % 2 == 0
  }

  method StoreByte(mem: array<bv8>, a: nat, w: bv32)
    requires a < mem.Length
    modifies mem
    ensures mem[..] == old(mem[..])[a := ByteOf(w, 0)]
  {
    mem[a] := ByteOf(w, 0);
  }

  method StoreHalf(mem: array<bv8>, a: nat, w: bv32)
    requires HalfAligned(a) && a + 2 <= mem.Length
    modifies mem
    ensures mem[..] == old(mem[..])[a := ByteOf(w, 0)][a + 1 := ByteOf(w, 1)]
  {
    hide ByteOf;
    mem[a] := ByteOf(w, 0);
    mem[a + 1] := ByteOf(w, 1);
  }

  method StoreWord(mem: array<bv8>, a: nat, w: bv32)
    requires Aligned(a) && a + 4 <= mem.Length
    modifies mem
    ensures mem[..] == old(mem[..])[a := ByteOf(w, 0)][a + 1 := ByteOf(w, 1)][a + 2 := ByteOf(w, 2)][a + 3 := ByteOf(w, 3)]
  {
    hide ByteOf;
    mem[a] := ByteOf(w, 0);
    mem[a + 1] := ByteOf(w, 1);
    mem[a + 2] := ByteOf(w, 2);
    mem[a + 3] := ByteOf(w, 3);
  }

  /** stmia of registers loaded from p when memory was s. */
  method StoreWords(mem: array<bv8>, a: nat, regs: seq<bv32>, ghost s: Memory, ghost p: nat)
    requires Aligned(a) && a + 4 * |regs| <= mem.Length && Loaded(regs, s, p)
    modifies mem
    ensures Placed(old(mem[..]), mem[..], a, s, p, 4 * |regs|)
  {
    ghost var m0 := mem[..];
    var i := 0;
    while i < |regs|
      invariant 0 <= i <= |regs| && Placed(m0, mem[..], a, s, p, 4 * i)
    {
      ghost var before := mem[..];
      AlignedAt(a, i);
      StoreWord(mem, a + 4 * i, regs[i]);
      OneWordPlaced(before, mem[..], a + 4 * i, s, p + 4 * i, regs[i]);
      PlacedChain(m0, before, mem[..], a, s, p, 4 * i, 4);
      i := i + 1;
    }
  }

  lemma AlignedAt(a: nat, i: nat)
    requires Aligned(a)
    ensures Aligned(a + 4 * i)
  {
  }

  lemma OneWordPlaced(now: Memory, next: Memory, a: nat, s: Memory, p: nat, w: bv32)
    requires p + 4 <= |s| && w == Word(s, p) && a + 4 <= |now|
    requires next == now[a := ByteOf(w, 0)][a + 1 := ByteOf(w, 1)][a + 2 := ByteOf(w, 2)][a + 3 := ByteOf(w, 3)]
    ensures Placed(now, next, a, s, p, 4)
  {
    hide ByteOf, Word;
    ByteOfWord(s, p, 0);
    ByteOfWord(s, p, 1);
    ByteOfWord(s, p, 2);
    ByteOfWord(s, p, 3);
  }

  /** ldmia r1!, {...}; stmia r0!, {...} */
  method CopyWords(mem: array<bv8>, r0: nat, r1: nat, n: nat)
    requires Aligned(r0) && Aligned(r1) && r0 + 4 * n <= mem.Length && r1 + 4 * n <= mem.Length
    modifies mem
    ensures Moved(old(mem[..]), mem[..], r0, r1, 4 * n)
  {
    hide Aligned, Placed, Loaded;
    var regs := LoadWords(mem, r1, n);
    StoreWords(mem, r0, regs, mem[..], r1);
  }

  function ByteReg(s: Memory, p: nat): bv32
    requires p < |s|
  {
    Pack(s[p], 0, 0, 0)
  }

  function HalfReg(s: Memory, p: nat): bv32
    requires p + 2 <= |s|
  {
    Pack(s[p], s[p + 1], 0, 0)
  }

  /** strb of a byte loaded from p when memory was s. */
  method PutByte(mem: array<bv8>, a: nat, w: bv32, ghost s: Memory, ghost p: nat)
    requires a < mem.Length && p < |s| && w == ByteReg(s, p)
    modifies mem
    ensures Placed(old(mem[..]), mem[..], a, s, p, 1)
  {
    BytesOfPack(s[p], 0, 0, 0);
    hide Pack, ByteOf;
    StoreByte(mem, a, w);
  }

  /** strh of a halfword loaded from p when memory was s. */
  method PutHalf(mem: array<bv8>, a: nat, w: bv32, ghost s: Memory, ghost p: nat)
    requires HalfAligned(a) && a + 2 <= mem.Length && p + 2 <= |s| && w == HalfReg(s, p)
    modifies mem
    ensures Placed(old(mem[..]), mem[..], a, s, p, 2)
  {
    BytesOfPack(s[p], s[p + 1], 0, 0);
    hide Pack, ByteOf;
    StoreHalf(mem, a, w);
  }

  // conditional loads and stores with the address moved on, and the copy they belong to

  method LdrbIf(on: bool, mem: array<bv8>, p: nat) returns (w: bv32, next: nat)
    requires on ==> p < mem.Length
    ensures next == (if on then p + 1 else p) && (on ==> w == ByteReg(mem[..], p))
  {
    w, next := 0, p;
    if on {
      w, next := ByteReg(mem[..], p), p + 1;
    }
  }

  method LdrhIf(on: bool, mem: array<bv8>, p: nat) returns (w: bv32, next: nat)
    requires on ==> HalfAligned(p) && p + 2 <= mem.Length
    ensures next == (if on then p + 2 else p) && (on ==> w == HalfReg(mem[..], p))
  {
    w, next := 0, p;
    if on {
      w, next := HalfReg(mem[..], p), p + 2;
    }
  }

  method LdmIf(on: bool, mem: array<bv8>, p: nat, n: nat) returns (regs: seq<bv32>, next: nat)
    requires on ==> Aligned(p) && p + 4 * n <= mem.Length
    ensures next == (if on then p + 4 * n else p) && (on ==> Loaded(regs, mem[..], p) && |regs| == n)
  {
    regs, next := [], p;
    if on {
      regs := LoadWords(mem, p, n);
      next := p + 4 * n;
    }
  }

  method StrbIf(on: bool, mem: array<bv8>, q: nat, w: bv32, ghost s: Memory, ghost r0: nat, ghost r1: nat)
    returns (next: nat)
    requires r0 <= q && Placed(s, mem[..], r0, s, r1, q - r0)
    requires on ==> q < mem.Length && r1 + (q - r0) < |s| && w == ByteReg(s, r1 + (q - r0))
    modifies mem
    ensures next == (if on then q + 1 else q) && Placed(s, mem[..], r0, s, r1, next - r0)
  {
    hide Placed, ByteReg;
    ghost var before := mem[..];
    next := q;
    if on {
      PutByte(mem, q, w, s, r1 + (q - r0));
      PlacedChain(s, before, mem[..], r0, s, r1, q - r0, 1);
      next := q + 1;
    }
  }

  method StrhIf(on: bool, mem: array<bv8>, q: nat, w: bv32, ghost s: Memory, ghost r0: nat, ghost r1: nat)
    returns (next: nat)
    requires r0 <= q && Placed(s, mem[..], r0, s, r1, q - r0)
    requires on ==> HalfAligned(q) && q + 2 <= mem.Length && r1 + (q - r0) + 2 <= |s| && w == HalfReg(s, r1 + (q - r0))
    modifies mem
    ensures next == (if on then q + 2 else q) && Placed(s, mem[..], r0, s, r1, next - r0)
  {
    hide Placed, HalfReg;
    ghost var before := mem[..];
    next := q;
    if on {
      PutHalf(mem, q, w, s, r1 + (q - r0));
      PlacedChain(s, before, mem[..], r0, s, r1, q - r0, 2);
      next := q + 2;
    }
  }

  method StmIf(on: bool, mem: array<bv8>, q: nat, regs: seq<bv32>, ghost s: Memory, ghost r0: nat, ghost r1: nat)
    returns (next: nat)
    requires r0 <= q && Placed(s, mem[..], r0, s, r1, q - r0)
    requires on ==> Aligned(q) && q + 4 * |regs| <= mem.Length && Loaded(regs, s, r1 + (q - r0))
    modifies mem
    ensures next == (if on then q + 4 * |regs| else q) && Placed(s, mem[..], r0, s, r1, next - r0)
  {
    hide Placed, Loaded;
    ghost var before := mem[..];
    next := q;
    if on {
      StoreWords(mem, q, regs, s, r1 + (q - r0));
      PlacedChain(s, before, mem[..], r0, s, r1, q - r0, 4 * |regs|);
      next := q + 4 * |regs|;
    }
  }

  /** A condition flag set from the bit of m worth k. */
  predicate Flag(m: nat, k: nat)
    requires k > 0
  {
    m / k % 2 == 1
  }

  function If(on: bool, k: nat): nat {
    if on then k else 0
  }

  lemma Digits(m: nat)
    requires m < 16
    ensures m == If(Flag(m, 8), 8) + If(Flag(m, 4), 4) + If(Flag(m, 2), 2) + If(Flag(m, 1), 1)
    ensures m < 8 ==> !Flag(m, 8)
  {
    var h, q, e := m / 2, m / 4, m / 8;
    assert m == 2 * h + m % 2 && h == 2 * q + h % 2 && q == 2 * e + q % 2 && e == e % 2;
  }

  lemma Quadruple(r: nat)
    requires Aligned(r)
    ensures r == 4 * (r / 4)
  {
  }

  lemma IsAligned(r: nat, k: nat)
    requires r == 4 * k
    ensures Aligned(r) && HalfAligned(r)
  {
    IsHalfAligned(r, 2 * k);
  }

  lemma IsHalfAligned(r: nat, k: nat)
    requires r == 2 * k
    ensures HalfAligned(r)
  {
  }

  /** Where the accesses chosen by the flags lie. */
  lemma HeadBits(r: nat, m: nat)
    requires m < 8 && Aligned(r + m)
    ensures var v, c, z := Flag(m, 1), Flag(m, 2), Flag(m, 4);
            && m == If(v, 1) + If(c, 2) + If(z, 4)
            && (c ==> HalfAligned(r + If(v, 1))) && Aligned(r + If(v, 1) + If(c, 2))
  {
    hide Flag, Aligned, HalfAligned;
    Digits(m);
    Quadruple(r + m);
    var v, c, z, k := If(Flag(m, 1), 1), If(Flag(m, 2), 2), If(Flag(m, 4), 4), (r + m) / 4;
    IsAligned(r + v + c, if z == 4 then k - 1 else k);
    if c == 2 {
      IsHalfAligned(r + v, if z == 4 then 2 * k - 3 else 2 * k - 1);
    }
  }

  lemma NothingPlaced(now: Memory, a: nat, s: Memory, p: nat)
    requires a <= |now| && p <= |s|
    ensures Placed(now, now, a, s, p, 0)
  {
  }

  /** ldrvsb, ldrcsh, ldreq and the stores: the low three bits of m choose a byte, a halfword and a word. */
  method CopyHead(mem: array<bv8>, r0: nat, r1: nat, m: nat)
    requires m < 8 && Aligned(r0 + m) && Aligned(r1 + m) && r0 + m <= mem.Length && r1 + m <= mem.Length
    modifies mem
    ensures Moved(old(mem[..]), mem[..], r0, r1, m)
  {
    hide Placed, Loaded, Aligned, HalfAligned, Flag, ByteReg, HalfReg;
    HeadBits(r0, m);
    HeadBits(r1, m);
    ghost var s := mem[..];
    var v, c, z := Flag(m, 1), Flag(m, 2), Flag(m, 4);
    var r3, p := LdrbIf(v, mem, r1);
    var r4, r5;
    r4, p := LdrhIf(c, mem, p);
    r5, p := LdmIf(z, mem, p, 1);
    NothingPlaced(s, r0, s, r1);
    var q := StrbIf(v, mem, r0, r3, s, r0, r1);
    q := StrhIf(c, mem, q, r4, s, r0, r1);
    q := StmIf(z, mem, q, r5, s, r0, r1);
  }

  lemma TailBits(r: nat, m: nat)
    requires m < 16 && Aligned(r)
    ensures var n, z, c, v := Flag(m, 8), Flag(m, 4), Flag(m, 2), Flag(m, 1);
            && m == If(n, 8) + If(z, 4) + If(c, 2) + If(v, 1)
            && Aligned(r + If(n, 8)) && HalfAligned(r + If(n, 8) + If(z, 4))
  {
    hide Flag, Aligned, HalfAligned;
    Digits(m);
    Quadruple(r);
    var n, z, k := If(Flag(m, 8), 8), If(Flag(m, 4), 4), r / 4;
    IsAligned(r + n, if n == 8 then k + 2 else k);
    IsAligned(r + n + z, (if n == 8 then k + 2 else k) + if z == 4 then 1 else 0);
  }

  /** Llessthan16_aligned: the low four bits of m choose two words, one word, a halfword and a byte. */
  method CopyTail(mem: array<bv8>, r0: nat, r1: nat, m: nat)
    requires m < 16 && Aligned(r0) && Aligned(r1) && r0 + m <= mem.Length && r1 + m <= mem.Length
    modifies mem
    ensures Moved(old(mem[..]), mem[..], r0, r1, m)
  {
    hide Placed, Loaded, Aligned, HalfAligned, Flag, ByteReg, HalfReg;
    TailBits(r0, m);
    TailBits(r1, m);
    ghost var s := mem[..];
    var n, z, c, v := Flag(m, 8), Flag(m, 4), Flag(m, 2), Flag(m, 1);
    var r23, p := LdmIf(n, mem, r1, 2);
    var r4, r5, r12;
    r4, p := LdmIf(z, mem, p, 1);
    r5, p := LdrhIf(c, mem, p);
    r12, p := LdrbIf(v, mem, p);
    NothingPlaced(s, r0, s, r1);
    var q := StmIf(n, mem, r0, r23, s, r0, r1);
    q := StmIf(z, mem, q, r4, s, r0, r1);
    q := StrhIf(c, mem, q, r5, s, r0, r1);
    q := StrbIf(v, mem, q, r12, s, r0, r1);
  }

  // the same with the address moved down first

  method LdrbDown(on: bool, mem: array<bv8>, p: nat) returns (w: bv32, next: nat)
    requires p <= mem.Length && (on ==> 1 <= p)
    ensures next == p - If(on, 1) && (on ==> w == ByteReg(mem[..], next))
  {
    w, next := 0, p;
    if on {
      w, next := ByteReg(mem[..], p - 1), p - 1;
    }
  }

  method LdrhDown(on: bool, mem: array<bv8>, p: nat) returns (w: bv32, next: nat)
    requires p <= mem.Length && (on ==> 2 <= p && HalfAligned(p - 2))
    ensures next == p - If(on, 2) && (on ==> w == HalfReg(mem[..], next))
  {
    w, next := 0, p;
    if on {
      w, next := HalfReg(mem[..], p - 2), p - 2;
    }
  }

  method LdmDown(on: bool, mem: array<bv8>, p: nat, n: nat) returns (regs: seq<bv32>, next: nat)
    requires p <= mem.Length && (on ==> 4 * n <= p && Aligned(p - 4 * n))
    ensures next == p - If(on, 4 * n) && (on ==> Loaded(regs, mem[..], next) && |regs| == n)
  {
    regs, next := [], p;
    if on {
      next := p - 4 * n;
      regs := LoadWords(mem, next, n);
    }
  }

  /** The bytes from q up to r0 hold what was, in s, at the same distance below r1. */
  ghost predicate PlacedDown(s: Memory, now: Memory, r0: nat, r1: nat, q: nat) {
    q <= r0 && r0 - q <= r1 && Placed(s, now, q, s, r1 - (r0 - q), r0 - q)
  }

  lemma PlacedDownStep(s: Memory, now: Memory, next: Memory, r0: nat, r1: nat, q: nat, k: nat)
    requires PlacedDown(s, now, r0, r1, q + k) && r0 - q <= r1 && Placed(now, next, q, s, r1 - (r0 - q), k)
    ensures PlacedDown(s, next, r0, r1, q)
  {
  }

  method StrbDown(on: bool, mem: array<bv8>, q: nat, w: bv32, ghost s: Memory, ghost r0: nat, ghost r1: nat)
    returns (next: nat)
    requires PlacedDown(s, mem[..], r0, r1, q) && q <= mem.Length && r1 <= |s|
    requires on ==> 1 <= q <= r0 && r0 - (q - 1) <= r1 && w == ByteReg(s, r1 - (r0 - (q - 1)))
    modifies mem
    ensures next == q - If(on, 1) && PlacedDown(s, mem[..], r0, r1, next)
  {
    hide PlacedDown, Placed, ByteReg;
    ghost var before := mem[..];
    next := q;
    if on {
      next := q - 1;
      PutByte(mem, next, w, s, r1 - (r0 - next));
      PlacedDownStep(s, before, mem[..], r0, r1, next, 1);
    }
  }

  method StrhDown(on: bool, mem: array<bv8>, q: nat, w: bv32, ghost s: Memory, ghost r0: nat, ghost r1: nat)
    returns (next: nat)
    requires PlacedDown(s, mem[..], r0, r1, q) && q <= mem.Length && r1 <= |s|
    requires on ==> 2 <= q <= r0 && HalfAligned(q - 2) && r0 - (q - 2) <= r1 && w == HalfReg(s, r1 - (r0 - (q - 2)))
    modifies mem
    ensures next == q - If(on, 2) && PlacedDown(s, mem[..], r0, r1, next)
  {
    hide PlacedDown, Placed, HalfReg;
    ghost var before := mem[..];
    next := q;
    if on {
      next := q - 2;
      PutHalf(mem, next, w, s, r1 - (r0 - next));
      PlacedDownStep(s, before, mem[..], r0, r1, next, 2);
    }
  }

  method StmDown(on: bool, mem: array<bv8>, q: nat, regs: seq<bv32>, ghost s: Memory, ghost r0: nat, ghost r1: nat)
    returns (next: nat)
    requires PlacedDown(s, mem[..], r0, r1, q) && q <= mem.Length && q <= r0
    requires on ==> var b := 4 * |regs|;
                    b <= q && Aligned(q - b) && r0 - (q - b) <= r1 && Loaded(regs, s, r1 - (r0 - (q - b)))
    modifies mem
    ensures next == q - If(on, 4 * |regs|) && PlacedDown(s, mem[..], r0, r1, next)
  {
    hide PlacedDown, Placed, Loaded;
    ghost var before := mem[..];
    next := q;
    if on {
      next := q - 4 * |regs|;
      StoreWords(mem, next, regs, s, r1 - (r0 - next));
      PlacedDownStep(s, before, mem[..], r0, r1, next, 4 * |regs|);
    }
  }

  lemma DownBits(r: nat, m: nat)
    requires m < 8 && m <= r && Aligned(r - m)
    ensures var v, c, z := Flag(m, 1), Flag(m, 2), Flag(m, 4);
            && m == If(v, 1) + If(c, 2) + If(z, 4)
            && (c ==> HalfAligned(r - If(v, 1) - 2)) && (z ==> Aligned(r - If(v, 1) - If(c, 2) - 4))
  {
    hide Flag, Aligned, HalfAligned;
    Digits(m);
    Quadruple(r - m);
    var v, c, z, k := If(Flag(m, 1), 1), If(Flag(m, 2), 2), If(Flag(m, 4), 4), (r - m) / 4;
    if c == 2 {
      IsHalfAligned(r - v - 2, if z == 4 then 2 * k + 2 else 2 * k);
    }
  }

  /** ldrvsb, ldrcsh, ldreq and the stores of Lunaligned_reverse_similarly. */
  method CopyHeadDown(mem: array<bv8>, r0: nat, r1: nat, m: nat)
    requires m < 8 && m <= r0 <= mem.Length && m <= r1 <= mem.Length && Aligned(r0 - m) && Aligned(r1 - m)
    modifies mem
    ensures Moved(old(mem[..]), mem[..], r0 - m, r1 - m, m)
  {
    hide Placed, Loaded, Aligned, HalfAligned, Flag, ByteReg, HalfReg;
    DownBits(r0, m);
    DownBits(r1, m);
    ghost var s := mem[..];
    var v, c, z := Flag(m, 1), Flag(m, 2), Flag(m, 4);
    var r3, p := LdrbDown(v, mem, r1);
    var r4, r5;
    r4, p := LdrhDown(c, mem, p);
    r5, p := LdmDown(z, mem, p, 1);
    NothingPlaced(s, r0, s, r1);
    var q := StrbDown(v, mem, r0, r3, s, r0, r1);
    q := StrhDown(c, mem, q, r4, s, r0, r1);
    q := StmDown(z, mem, q, r5, s, r0, r1);
  }

  // ----- the shifted loops: dest is a = 1, 2 or 3 bytes past a word boundary, src on one

  /** The a bytes from p, low byte first; the rest of the register is zero. */
  function Carry(s: Memory, p: nat, a: nat): bv32
    requires 1 <= a <= 3 && p + a <= |s|
  {
    if a == 1 then Pack(s[p], 0, 0, 0) else if a == 2 then Pack(s[p], s[p + 1], 0, 0) else Pack(s[p], s[p + 1], s[p + 2], 0)
  }

  /**
   * goal is memory once the a bytes in the carry register are stored at r0 as well; it is now elsewhere,
   * in particular where src is still to be read.
   */
  ghost predicate Pending(s: Memory, now: Memory, goal: Memory, dst: nat, src: nat, n: nat,
                          a: nat, r0: nat, r1: nat, r2: nat) {
    && 1 <= a <= 3 && Forward(s, goal, dst, src, n, r0 + a, r1, r2)
    && Placed(now, goal, r0, goal, r0, a)
    && forall x | r1 <= x < src + n :: now[x] == goal[x]
  }

  function NextGoal(goal: Memory, a: nat, r0: nat, r1: nat): Memory
    requires r0 + a + 4 <= |goal| && r1 + 4 <= |goal|
  {
    goal[..r0 + a] + goal[r1..r1 + 4] + goal[r0 + a + 4..]
  }

  lemma PendingRoom(s: Memory, now: Memory, goal: Memory, dst: nat, src: nat, n: nat, a: nat, r0: nat, r1: nat, r2: nat)
    requires Pending(s, now, goal, dst, src, n, a, r0, r1, r2)
    ensures |now| == |goal| == |s| && r0 + a + r2 <= |goal| && r1 + r2 <= |goal| && 1 <= a <= 3
  {
  }

  lemma NextGoalMoved(goal: Memory, a: nat, r0: nat, r1: nat)
    requires r0 + a + 4 <= |goal| && r1 + 4 <= |goal|
    ensures Moved(goal, NextGoal(goal, a, r0, r1), r0 + a, r1, 4)
  {
    var g := NextGoal(goal, a, r0, r1);
    forall i | 0 <= i < |goal| ensures g[i] == Want(goal, r0 + a, goal, r1, 4, i) {
      if i < r0 + a {
      } else if i < r0 + a + 4 {
        assert g[i] == goal[r1..r1 + 4][i - (r0 + a)];
      } else {
        assert g[i] == goal[r0 + a + 4..][i - (r0 + a + 4)];
      }
    }
    hide NextGoal;
    IsPlaced(goal, g, r0 + a, goal, r1, 4);
  }

  lemma PendingPlaced(now: Memory, next: Memory, goal: Memory, g: Memory, a: nat, r0: nat, r1: nat)
    requires 1 <= a <= 3 && Placed(now, goal, r0, goal, r0, a) && Placed(now, next, r0, g, r0, 4)
    requires Moved(goal, g, r0 + a, r1, 4)
    ensures Placed(next, g, r0 + 4, g, r0 + 4, a)
  {
    hide Placed;
    PlacedSizes(now, goal, r0, goal, r0, a);
    PlacedSizes(now, next, r0, g, r0, 4);
    PlacedSizes(goal, g, r0 + a, goal, r1, 4);
    forall i | 0 <= i < |next| ensures g[i] == Want(next, r0 + 4, g, r0 + 4, a, i) {
      PlacedAt(now, next, r0, g, r0, 4, i);
      PlacedAt(goal, g, r0 + a, goal, r1, 4, i);
      PlacedAt(now, goal, r0, goal, r0, a, i);
    }
    IsPlaced(next, g, r0 + 4, g, r0 + 4, a);
  }

  /** What is still to be read does not lie where bytes are still to be written. */
  lemma StillToRead(s: Memory, now: Memory, goal: Memory, dst: nat, src: nat, n: nat,
                    a: nat, r0: nat, r1: nat, r2: nat, x: nat)
    requires Pending(s, now, goal, dst, src, n, a, r0, r1, r2) && r1 + 4 <= x < src + n
    ensures !(r0 + 4 <= x < r0 + a + 4) && x < |now| == |goal| && now[x] == goal[x]
  {
    hide Placed;
    PlacedSizes(now, goal, r0, goal, r0, a);
    PlacedSizes(s, goal, dst, s, src, n - r2);
  }

  lemma SourceIntact(now: Memory, next: Memory, goal: Memory, g: Memory, a: nat, r0: nat, r1: nat, x: nat)
    requires Placed(now, next, r0, g, r0, 4) && Moved(goal, g, r0 + a, r1, 4) && a < 4
    requires !(r0 + 4 <= x < r0 + a + 4) && x < |now| == |goal| && now[x] == goal[x]
    ensures x < |next| == |g| && next[x] == g[x]
  {
    hide Placed;
    PlacedSizes(now, next, r0, g, r0, 4);
    PlacedSizes(goal, g, r0 + a, goal, r1, 4);
    PlacedAt(now, next, r0, g, r0, 4, x);
    PlacedAt(goal, g, r0 + a, goal, r1, 4, x);
  }

  /** One word from src shifted in, one word stored: the goal moves on by four bytes. */
  lemma PendingStep(s: Memory, now: Memory, next: Memory, goal: Memory, dst: nat, src: nat, n: nat,
                    a: nat, r0: nat, r1: nat, r2: nat)
    requires Pending(s, now, goal, dst, src, n, a, r0, r1, r2) && r2 >= 4
    requires r0 + a + 4 <= |goal| && r1 + 4 <= |goal|
    requires Placed(now, next, r0, NextGoal(goal, a, r0, r1), r0, 4)
    ensures Pending(s, next, NextGoal(goal, a, r0, r1), dst, src, n, a, r0 + 4, r1 + 4, r2 - 4)
  {
    hide NextGoal, Placed, Forward;
    var g := NextGoal(goal, a, r0, r1);
    NextGoalMoved(goal, a, r0, r1);
    PendingPlaced(now, next, goal, g, a, r0, r1);
    ForwardStep(s, goal, g, dst, src, n, r0 + a, r1, r2, 4);
    PendingRoom(s, now, goal, dst, src, n, a, r0, r1, r2);
    forall x | r1 + 4 <= x < src + n ensures x < |next| == |g| && next[x] == g[x] {
      StillToRead(s, now, goal, dst, src, n, a, r0, r1, r2, x);
      SourceIntact(now, next, goal, g, a, r0, r1, x);
    }
  }

  lemma Shift1(c0: bv8, b0: bv8, b1: bv8, b2: bv8, b3: bv8)
    ensures Join(Pack(c0, 0, 0, 0), Pack(b0, b1, b2, b3), 3) == Pack(c0, b0, b1, b2)
    ensures Lower(Pack(b0, b1, b2, b3), 3) == Pack(b3, 0, 0, 0)
  {
  }

  lemma Shift2(c0: bv8, c1: bv8, b0: bv8, b1: bv8, b2: bv8, b3: bv8)
    ensures Join(Pack(c0, c1, 0, 0), Pack(b0, b1, b2, b3), 2) == Pack(c0, c1, b0, b1)
    ensures Lower(Pack(b0, b1, b2, b3), 2) == Pack(b2, b3, 0, 0)
  {
  }

  lemma Shift3(c0: bv8, c1: bv8, c2: bv8, b0: bv8, b1: bv8, b2: bv8, b3: bv8)
    ensures Join(Pack(c0, c1, c2, 0), Pack(b0, b1, b2, b3), 1) == Pack(c0, c1, c2, b0)
    ensures Lower(Pack(b0, b1, b2, b3), 1) == Pack(b1, b2, b3, 0)
  {
  }

  lemma NextGoalBytes(goal: Memory, a: nat, r0: nat, r1: nat)
    requires 1 <= a <= 3 && r0 + a + 4 <= |goal| && r1 + 4 <= |goal|
    ensures var g := NextGoal(goal, a, r0, r1);
            && |g| == |goal|
            && g[r0] == goal[r0] && (a >= 2 ==> g[r0 + 1] == goal[r0 + 1]) && (a >= 3 ==> g[r0 + 2] == goal[r0 + 2])
            && g[r0 + a] == goal[r1] && g[r0 + a + 1] == goal[r1 + 1]
            && g[r0 + a + 2] == goal[r1 + 2] && g[r0 + a + 3] == goal[r1 + 3]
  {
  }

  /** Shifting a source word in gives the word to store and the next carry. */
  lemma CarryStep(goal: Memory, a: nat, r0: nat, r1: nat)
    requires 1 <= a <= 3 && r0 + a + 4 <= |goal| && r1 + 4 <= |goal|
    ensures var g := NextGoal(goal, a, r0, r1);
            && Join(Carry(goal, r0, a), Word(goal, r1), 4 - a) == Word(g, r0)
            && Lower(Word(goal, r1), 4 - a) == Carry(g, r0 + 4, a)
  {
    NextGoalBytes(goal, a, r0, r1);
    hide Pack, Join, Lower, NextGoal;
    if a == 1 {
      Shift1(goal[r0], goal[r1], goal[r1 + 1], goal[r1 + 2], goal[r1 + 3]);
    } else if a == 2 {
      Shift2(goal[r0], goal[r0 + 1], goal[r1], goal[r1 + 1], goal[r1 + 2], goal[r1 + 3]);
    } else {
      Shift3(goal[r0], goal[r0 + 1], goal[r0 + 2], goal[r1], goal[r1 + 1], goal[r1 + 2], goal[r1 + 3]);
    }
  }

  lemma SameSourceWord(s: Memory, now: Memory, goal: Memory, dst: nat, src: nat, n: nat,
                       a: nat, r0: nat, r1: nat, r2: nat)
    requires Pending(s, now, goal, dst, src, n, a, r0, r1, r2) && r2 >= 4
    ensures r1 + 4 <= |now| == |goal| && Word(now, r1) == Word(goal, r1) && r0 + a + 4 <= |goal|
  {
    PendingRoom(s, now, goal, dst, src, n, a, r0, r1, r2);
    hide Pack, Placed;
  }

  /** Lalign1_forward_loop, Lalign2_forward_loop and Lalign3_forward_loop, with the shift as a parameter. */
  method ShiftLoop(mem: array<bv8>, a: nat, p: nat, q: nat, words: nat, carry: bv32, ghost left: nat,
                   ghost s: Memory, ghost dst: nat, ghost src: nat, ghost n: nat)
    returns (r0: nat, r1: nat, r4: bv32, ghost goal: Memory)
    requires Pending(s, mem[..], mem[..], dst, src, n, a, p, q, left) && Aligned(p) && Aligned(q)
    requires 1 <= words && 4 * words <= left && p + a <= mem.Length && carry == Carry(mem[..], p, a)
    modifies mem
    ensures r0 == p + 4 * words && r1 == q + 4 * words && Aligned(r0)
    ensures Pending(s, mem[..], goal, dst, src, n, a, r0, r1, left - 4 * words)
    ensures r0 + a <= |goal| && r4 == Carry(goal, r0, a)
  {
    hide Pending, Placed, Word, Join, Lower, Carry, NextGoal, Aligned, ByteOf;
    r0, r1, r4, goal := p, q, carry, mem[..];
    var r12 := words;
    ghost var r2 := left;
    PendingRoom(s, mem[..], goal, dst, src, n, a, r0, r1, r2);
    while true
      invariant 1 <= r12 <= words && r0 == p + 4 * (words - r12) && r1 == q + 4 * (words - r12)
      invariant r2 == left - 4 * (words - r12) && Aligned(r0) && Aligned(r1)
      invariant Pending(s, mem[..], goal, dst, src, n, a, r0, r1, r2)
      invariant r0 + a <= |goal| && r4 == Carry(goal, r0, a)
      decreases r12
    {
      SameSourceWord(s, mem[..], goal, dst, src, n, a, r0, r1, r2);
      ghost var before, g := mem[..], NextGoal(goal, a, r0, r1);
      CarryStep(goal, a, r0, r1);
      NextGoalBytes(goal, a, r0, r1);
      var r3 := Word(mem[..], r1);
      StoreWord(mem, r0, Join(r4, r3, 4 - a));
      OneWordPlaced(before, mem[..], r0, g, r0, Word(g, r0));
      PendingStep(s, before, mem[..], goal, dst, src, n, a, r0, r1, r2);
      NextAligned(r0);
      NextAligned(r1);
      r4 := Lower(r3, 4 - a);
      r0, r1, r2, goal := r0 + 4, r1 + 4, r2 - 4, g;
      r12 := r12 - 1;
      if r12 == 0 {
        break;
      }
    }
  }

  // ----- forward copies

  lemma Begin(s: Memory, dst: nat, src: nat, n: nat)
    requires dst + n <= |s| && src + n <= |s|
    ensures (dst <= src || src + n <= dst) ==> Forward(s, s, dst, src, n, dst, src, n)
    ensures src <= dst ==> Backward(s, s, dst, src, n, dst + n, src + n, n)
  {
  }

  lemma Room(s: Memory, now: Memory, dst: nat, src: nat, n: nat, r0: nat, r1: nat, r2: nat)
    requires Forward(s, now, dst, src, n, r0, r1, r2)
    ensures |now| == |s| && r0 + r2 <= |now| && r1 + r2 <= |now|
  {
  }

  lemma Done(s: Memory, now: Memory, dst: nat, src: nat, n: nat, r0: nat, r1: nat)
    requires Forward(s, now, dst, src, n, r0, r1, 0)
    ensures Moved(s, now, dst, src, n)
  {
  }

  /** One load of `words` registers and one store of them. */
  method ForwardWords(mem: array<bv8>, r0: nat, r1: nat, ghost r2: nat, words: nat,
                      ghost s: Memory, ghost dst: nat, ghost src: nat, ghost n: nat)
    requires Forward(s, mem[..], dst, src, n, r0, r1, r2) && Aligned(r0) && Aligned(r1) && 4 * words <= r2
    modifies mem
    ensures Forward(s, mem[..], dst, src, n, r0 + 4 * words, r1 + 4 * words, r2 - 4 * words)
    ensures Aligned(r0 + 4 * words) && Aligned(r1 + 4 * words)
  {
    hide Forward, Moved, Aligned;
    ghost var before := mem[..];
    Room(s, mem[..], dst, src, n, r0, r1, r2);
    CopyWords(mem, r0, r1, words);
    ForwardStep(s, before, mem[..], dst, src, n, r0, r1, r2, 4 * words);
    AlignedAt(r0, words);
    AlignedAt(r1, words);
  }

  /** ldrb and strb */
  method ForwardByte(mem: array<bv8>, r0: nat, r1: nat, ghost r2: nat,
                     ghost s: Memory, ghost dst: nat, ghost src: nat, ghost n: nat)
    requires Forward(s, mem[..], dst, src, n, r0, r1, r2) && 1 <= r2
    modifies mem
    ensures Forward(s, mem[..], dst, src, n, r0 + 1, r1 + 1, r2 - 1)
  {
    hide Forward, Placed, ByteReg;
    ghost var before := mem[..];
    Room(s, mem[..], dst, src, n, r0, r1, r2);
    PutByte(mem, r0, ByteReg(mem[..], r1), mem[..], r1);
    ForwardStep(s, before, mem[..], dst, src, n, r0, r1, r2, 1);
  }

  /** Lbytewise2 */
  method Bytewise2(mem: array<bv8>, to: nat, from: nat, len: nat,
                   ghost s: Memory, ghost dst: nat, ghost src: nat, ghost n: nat)
    requires Forward(s, mem[..], dst, src, n, to, from, len) && 1 <= len
    modifies mem
    ensures Moved(s, mem[..], dst, src, n)
  {
    hide Forward, Placed, ByteReg;
    var r0, r1, r2 := to, from, len;
    while true
      invariant Forward(s, mem[..], dst, src, n, r0, r1, r2) && 1 <= r2
      decreases r2
    {
      ghost var before := mem[..];
      Room(s, mem[..], dst, src, n, r0, r1, r2);
      var two := r2 >= 2;
      var r3, p := LdrbIf(true, mem, r1);
      var r4;
      r4, p := LdrbIf(two, mem, p);
      NothingPlaced(before, r0, before, r1);
      var q := StrbIf(true, mem, r0, r3, before, r0, r1);
      q := StrbIf(two, mem, q, r4, before, r0, r1);
      ForwardStep(s, before, mem[..], dst, src, n, r0, r1, r2, q - r0);
      r0, r1 := q, p;
      if r2 <= 2 {
        Done(s, mem[..], dst, src, n, r0, r1);
        break;
      }
      r2 := r2 - 2;
    }
  }

  /** Lbytewise */
  method Bytewise(mem: array<bv8>, to: nat, from: nat, len: nat,
                  ghost s: Memory, ghost dst: nat, ghost src: nat, ghost n: nat)
    requires Forward(s, mem[..], dst, src, n, to, from, len) && 1 <= len
    modifies mem
    ensures Moved(s, mem[..], dst, src, n)
  {
    hide Forward, Moved;
    var r0, r1, r2 := to, from, len;
    while true
      invariant Forward(s, mem[..], dst, src, n, r0, r1, r2) && 1 <= r2
      decreases r2
    {
      ForwardByte(mem, r0, r1, r2, s, dst, src, n);
      r0, r1, r2 := r0 + 1, r1 + 1, r2 - 1;
      if r2 == 0 {
        break;
      }
    }
    Done(s, mem[..], dst, src, n, r0, r1);
  }

  /** Llessthan16_aligned */
  method LessThan16Aligned(mem: array<bv8>, r0: nat, r1: nat, r2: nat,
                           ghost s: Memory, ghost dst: nat, ghost src: nat, ghost n: nat)
    requires Forward(s, mem[..], dst, src, n, r0, r1, r2) && Aligned(r0) && Aligned(r1) && r2 < 16
    modifies mem
    ensures Moved(s, mem[..], dst, src, n)
  {
    hide Forward, Moved, Aligned;
    ghost var before := mem[..];
    Room(s, mem[..], dst, src, n, r0, r1, r2);
    CopyTail(mem, r0, r1, r2);
    ForwardStep(s, before, mem[..], dst, src, n, r0, r1, r2, r2);
    Done(s, mem[..], dst, src, n, r0 + r2, r1 + r2);
  }

  /** Llessthan64_aligned */
  method LessThan64Aligned(mem: array<bv8>, to: nat, from: nat, len: nat,
                           ghost s: Memory, ghost dst: nat, ghost src: nat, ghost n: nat)
    requires Forward(s, mem[..], dst, src, n, to, from, len) && Aligned(to) && Aligned(from) && 1 <= len
    modifies mem
    ensures Moved(s, mem[..], dst, src, n)
  {
    hide Forward, Moved, Aligned;
    var r0, r1, r2 := to, from, len;
    while true
      invariant Forward(s, mem[..], dst, src, n, r0, r1, r2) && Aligned(r0) && Aligned(r1) && 1 <= r2
      decreases r2
    {
      if r2 < 16 {
        LessThan16Aligned(mem, r0, r1, r2, s, dst, src, n);
        break;
      }
      ForwardWords(mem, r0, r1, r2, 4, s, dst, src, n);
      r0, r1, r2 := r0 + 16, r1 + 16, r2 - 16;
      if r2 == 0 {
        Done(s, mem[..], dst, src, n, r0, r1);
        break;
      }
    }
  }

  /** Lmorethan64_aligned */
  method MoreThan64Aligned(mem: array<bv8>, to: nat, from: nat, len: nat,
                           ghost s: Memory, ghost dst: nat, ghost src: nat, ghost n: nat)
    requires Forward(s, mem[..], dst, src, n, to, from, len) && Aligned(to) && Aligned(from) && 64 <= len
    modifies mem
    ensures Moved(s, mem[..], dst, src, n)
  {
    hide Forward, Moved, Aligned;
    var r0, r1, r2: int := to, from, len - 64;
    while true
      invariant 0 <= r0 && 0 <= r1 && 0 <= r2 && Forward(s, mem[..], dst, src, n, r0, r1, r2 + 64)
      invariant Aligned(r0) && Aligned(r1)
      decreases r2
    {
      ForwardWords(mem, r0, r1, r2 + 64, 8, s, dst, src, n);
      ForwardWords(mem, r0 + 32, r1 + 32, r2 + 32, 8, s, dst, src, n);
      r0, r1, r2 := r0 + 64, r1 + 64, r2 - 64;
      if r2 < 0 {
        break;
      }
    }
    r2 := r2 + 64;
    if r2 == 0 {
      Done(s, mem[..], dst, src, n, r0, r1);
    } else {
      LessThan64Aligned(mem, r0, r1, r2, s, dst, src, n);
    }
  }

  /** Lwordalignloop and Lwordalignloop2: byte by byte until src is word aligned. */
  method WordAlign(mem: array<bv8>, to: nat, from: nat, len: nat,
                   ghost s: Memory, ghost dst: nat, ghost src: nat, ghost n: nat)
    returns (r0: nat, r1: nat, r2: nat)
    requires Forward(s, mem[..], dst, src, n, to, from, len) && 4 <= len
    modifies mem
    ensures Forward(s, mem[..], dst, src, n, r0, r1, r2) && Aligned(r1) && len - 3 <= r2 <= len
    ensures r0 == to + (len - r2) && r1 == from + (len - r2)
  {
    hide Forward, Aligned, Remainder;
    r0, r1, r2 := to, from, len;
    while !Aligned(r1)
      invariant r2 <= len && r0 == to + (len - r2) && r1 == from + (len - r2)
      invariant Forward(s, mem[..], dst, src, n, r0, r1, r2)
      invariant len - r2 <= 3 && (Aligned(r1) || len - r2 < Remainder(r1))
      decreases r2
    {
      ForwardByte(mem, r0, r1, r2, s, dst, src, n);
      StepRemainder(r1);
      r0, r1, r2 := r0 + 1, r1 + 1, r2 - 1;
    }
  }

  /** src and dest lie the same number of bytes past a word boundary. */
  ghost predicate Alike(r0: nat, r1: nat) {
    r0 % 4 == r1 % 4
  }

  lemma AlikeMoves(r0: nat, r1: nat, k: nat)
    requires Alike(r0, r1)
    ensures Alike(r0 + k, r1 + k) && (Aligned(r1 + k) <==> Aligned(r0 + k))
    ensures k <= r0 && k <= r1 ==> Alike(r0 - k, r1 - k) && (Aligned(r0 - k) <==> Aligned(r1 - k))
  {
    assert (r0 + k) % 4 == (r0 % 4 + k) % 4;
    assert (r1 + k) % 4 == (r1 % 4 + k) % 4;
    var a, b := r0 / 4, r1 / 4;
    if k <= r0 && k <= r1 {
      assert r0 - k == 4 * (a - b) + (r1 - k);
    }
  }

  /** Lsmallforwardcopy: less than 64 bytes */
  method SmallForward(mem: array<bv8>, to: nat, from: nat, len: nat,
                      ghost s: Memory, ghost dst: nat, ghost src: nat, ghost n: nat)
    requires Forward(s, mem[..], dst, src, n, to, from, len) && Alike(to, from) && 1 <= len < 64
    modifies mem
    ensures Moved(s, mem[..], dst, src, n)
  {
    hide Forward, Moved, Aligned, Alike;
    if len < 4 {
      Bytewise2(mem, to, from, len, s, dst, src, n);
    } else {
      var r0, r1, r2 := WordAlign(mem, to, from, len, s, dst, src, n);
      AlikeMoves(to, from, len - r2);
      if r2 >= 16 {
        LessThan64Aligned(mem, r0, r1, r2, s, dst, src, n);
      } else {
        LessThan16Aligned(mem, r0, r1, r2, s, dst, src, n);
      }
    }
  }

  /** Lunaligned_32: dest is 16-byte aligned */
  method Unaligned32(mem: array<bv8>, to: nat, from: nat, len: nat,
                     ghost s: Memory, ghost dst: nat, ghost src: nat, ghost n: nat)
    requires Forward(s, mem[..], dst, src, n, to, from, len) && Aligned(to) && Aligned(from) && 17 <= len
    modifies mem
    ensures Moved(s, mem[..], dst, src, n)
  {
    hide Forward, Moved, Aligned;
    var r0, r1, r2 := to, from, len;
    if r0 / 16 % 2 == 1 {
      ForwardWords(mem, r0, r1, r2, 4, s, dst, src, n);
      r0, r1, r2 := r0 + 16, r1 + 16, r2 - 16;
    }
    if r2 >= 64 {
      MoreThan64Aligned(mem, r0, r1, r2, s, dst, src, n);
    } else {
      LessThan64Aligned(mem, r0, r1, r2, s, dst, src, n);
    }
  }

  /** The bytes missing to a 16-byte boundary, in the top four bits of r12 = -(r0 << 28). */
  function ToBoundary(r0: nat): (m: nat)
    ensures m < 16
  {
    (16 - r0 % 16) % 16
  }

  lemma BoundaryBits(r0: nat)
    ensures var m := ToBoundary(r0); Aligned(r0 + m % 8) && m == m % 8 + If(Flag(m, 8), 8)
  {
    var t, x, m := r0 / 16, r0 % 16, ToBoundary(r0);
    assert r0 == 16 * t + x;
    if x == 0 {
      assert m == 0;
    } else if x <= 8 {
      assert m == 16 - x && m % 8 == 8 - x && m / 8 == 1;
      assert r0 + m % 8 == 4 * (4 * t + 2);
    } else {
      assert m == 16 - x && m % 8 == m && m / 8 == 0;
      assert r0 + m % 8 == 4 * (4 * t + 4);
    }
  }

  /** Lsimilarlyunaligned */
  method SimilarlyUnaligned(mem: array<bv8>, to: nat, from: nat, len: nat,
                            ghost s: Memory, ghost dst: nat, ghost src: nat, ghost n: nat)
    requires Forward(s, mem[..], dst, src, n, to, from, len) && Alike(to, from) && 64 <= len
    modifies mem
    ensures Moved(s, mem[..], dst, src, n)
  {
    hide Forward, Moved, Aligned, Alike, Flag, ToBoundary;
    var m := ToBoundary(to);
    var h := m % 8;
    BoundaryBits(to);
    AlikeMoves(to, from, h);
    Room(s, mem[..], dst, src, n, to, from, len);
    ghost var before := mem[..];
    CopyHead(mem, to, from, h);
    ForwardStep(s, before, mem[..], dst, src, n, to, from, len, h);
    var r0, r1 := to + h, from + h;
    if Flag(m, 8) {
      ForwardWords(mem, r0, r1, len - h, 2, s, dst, src, n);
      r0, r1 := r0 + 8, r1 + 8;
    }
    Unaligned32(mem, r0, r1, len - m, s, dst, src, n);
  }

  // ----- forward copies to a differently aligned destination

  lemma BeginShift(s: Memory, now: Memory, dst: nat, src: nat, n: nat, a: nat, r0: nat, r1: nat, r2: nat)
    requires Forward(s, now, dst, src, n, r0 + a, r1, r2) && 1 <= a <= 3
    ensures Pending(s, now, now, dst, src, n, a, r0, r1, r2)
  {
  }

  /** Storing the carry reaches the goal. */
  lemma EndShift(s: Memory, now: Memory, next: Memory, goal: Memory, dst: nat, src: nat, n: nat,
                 a: nat, r0: nat, r1: nat, r2: nat)
    requires Pending(s, now, goal, dst, src, n, a, r0, r1, r2) && Placed(now, next, r0, goal, r0, a)
    ensures Forward(s, next, dst, src, n, r0 + a, r1, r2)
  {
    assert next == goal by {
      assert |next| == |goal|;
      forall i | 0 <= i < |goal| ensures next[i] == goal[i] {
        PlacedAt(now, next, r0, goal, r0, a, i);
        PlacedAt(now, goal, r0, goal, r0, a, i);
      }
    }
  }

  /** ands r2, r2, #3; beq Lexit; b Lbytewise2 */
  method Leftover(mem: array<bv8>, r0: nat, r1: nat, r2: nat,
                  ghost s: Memory, ghost dst: nat, ghost src: nat, ghost n: nat)
    requires Forward(s, mem[..], dst, src, n, r0, r1, r2)
    modifies mem
    ensures Moved(s, mem[..], dst, src, n)
  {
    hide Forward, Moved;
    if r2 == 0 {
      Done(s, mem[..], dst, src, n, r0, r1);
    } else {
      Bytewise2(mem, r0, r1, r2, s, dst, src, n);
    }
  }

  lemma LoadCarry(mem: Memory, p: nat)
    requires p + 4 <= |mem|
    ensures Word(mem, p) & 0x00FF_FFFF == Carry(mem, p, 3)
  {
    MaskTop(mem[p], mem[p + 1], mem[p + 2], mem[p + 3]);
    hide Pack;
  }

  lemma MaskTop(b0: bv8, b1: bv8, b2: bv8, b3: bv8)
    ensures Pack(b0, b1, b2, b3) & 0x00FF_FFFF == Pack(b0, b1, b2, 0)
  {
  }

  lemma Quarters(r2: nat)
    requires 4 <= r2
    ensures 1 <= r2 / 4 && r2 == 4 * (r2 / 4) + r2 % 4 && r2 % 4 < 4
  {
  }

  /** Lalign1_forward */
  method Align1Forward(mem: array<bv8>, r0: nat, r1: nat, r2: nat,
                       ghost s: Memory, ghost dst: nat, ghost src: nat, ghost n: nat)
    requires Forward(s, mem[..], dst, src, n, r0, r1, r2) && 1 <= r0 && Aligned(r0 - 1) && Aligned(r1) && 4 <= r2
    modifies mem
    ensures Moved(s, mem[..], dst, src, n)
  {
    hide Forward, Moved, Pending, Placed, Pack, Aligned;
    var words, rest := r2 / 4, r2 % 4;
    Quarters(r2);
    Room(s, mem[..], dst, src, n, r0, r1, r2);
    BeginShift(s, mem[..], dst, src, n, 1, r0 - 1, r1, r2);
    var r4 := ByteReg(mem[..], r0 - 1);
    var p, q;
    ghost var goal;
    p, q, r4, goal := ShiftLoop(mem, 1, r0 - 1, r1, words, r4, r2, s, dst, src, n);
    ghost var before := mem[..];
    PendingRoom(s, before, goal, dst, src, n, 1, p, q, rest);
    PutByte(mem, p, r4, goal, p);
    EndShift(s, before, mem[..], goal, dst, src, n, 1, p, q, rest);
    Leftover(mem, p + 1, q, rest, s, dst, src, n);
  }

  /** Lalign2_forward */
  method Align2Forward(mem: array<bv8>, r0: nat, r1: nat, r2: nat,
                       ghost s: Memory, ghost dst: nat, ghost src: nat, ghost n: nat)
    requires Forward(s, mem[..], dst, src, n, r0, r1, r2) && 2 <= r0 && Aligned(r0 - 2) && Aligned(r1) && 4 <= r2
    modifies mem
    ensures Moved(s, mem[..], dst, src, n)
  {
    hide Forward, Moved, Pending, Placed, Pack, Aligned, HalfAligned;
    var words, rest := r2 / 4, r2 % 4;
    Quarters(r2);
    Room(s, mem[..], dst, src, n, r0, r1, r2);
    BeginShift(s, mem[..], dst, src, n, 2, r0 - 2, r1, r2);
    AlignedHalf(r0 - 2);
    var r4 := HalfReg(mem[..], r0 - 2);
    var p, q;
    ghost var goal;
    p, q, r4, goal := ShiftLoop(mem, 2, r0 - 2, r1, words, r4, r2, s, dst, src, n);
    ghost var before := mem[..];
    PendingRoom(s, before, goal, dst, src, n, 2, p, q, rest);
    AlignedHalf(p);
    PutHalf(mem, p, r4, goal, p);
    EndShift(s, before, mem[..], goal, dst, src, n, 2, p, q, rest);
    Leftover(mem, p + 2, q, rest, s, dst, src, n);
  }

  lemma AlignedHalf(a: nat)
    requires Aligned(a)
    ensures HalfAligned(a)
  {
    Quadruple(a);
    IsAligned(a, a / 4);
  }

  /** strh of the low half of the carry, then strb of its third byte. */
  method StoreThree(mem: array<bv8>, p: nat, r4: bv32, ghost goal: Memory)
    requires HalfAligned(p) && p + 3 <= mem.Length == |goal| && r4 == Carry(goal, p, 3)
    modifies mem
    ensures Placed(old(mem[..]), mem[..], p, goal, p, 3)
  {
    BytesOfPack(goal[p], goal[p + 1], goal[p + 2], 0);
    BytesOfPack(goal[p + 2], 0, 0, 0);
    ShiftHalf(goal[p], goal[p + 1], goal[p + 2]);
    hide Pack, ByteOf, Lower;
    StoreHalf(mem, p, r4);
    StoreByte(mem, p + 2, Lower(r4, 2));
  }

  lemma ShiftHalf(b0: bv8, b1: bv8, b2: bv8)
    ensures Lower(Pack(b0, b1, b2, 0), 2) == Pack(b2, 0, 0, 0)
  {
  }

  /** Lalign3_forward */
  method Align3Forward(mem: array<bv8>, r0: nat, r1: nat, r2: nat,
                       ghost s: Memory, ghost dst: nat, ghost src: nat, ghost n: nat)
    requires Forward(s, mem[..], dst, src, n, r0, r1, r2) && 3 <= r0 && Aligned(r0 - 3) && Aligned(r1) && 4 <= r2
    modifies mem
    ensures Moved(s, mem[..], dst, src, n)
  {
    hide Forward, Moved, Pending, Placed, Pack, Aligned, HalfAligned, Carry;
    var words, rest := r2 / 4, r2 % 4;
    Quarters(r2);
    Room(s, mem[..], dst, src, n, r0, r1, r2);
    BeginShift(s, mem[..], dst, src, n, 3, r0 - 3, r1, r2);
    LoadCarry(mem[..], r0 - 3);
    var r4 := Word(mem[..], r0 - 3) & 0x00FF_FFFF;
    var p, q;
    ghost var goal;
    p, q, r4, goal := ShiftLoop(mem, 3, r0 - 3, r1, words, r4, r2, s, dst, src, n);
    ghost var before := mem[..];
    PendingRoom(s, before, goal, dst, src, n, 3, p, q, rest);
    AlignedHalf(p);
    StoreThree(mem, p, r4, goal);
    EndShift(s, before, mem[..], goal, dst, src, n, 3, p, q, rest);
    Leftover(mem, p + 3, q, rest, s, dst, src, n);
  }

  lemma NotAlike(r0: nat, r1: nat, k: nat)
    requires !Alike(r0, r1) && Aligned(r1 + k)
    ensures var a := (r0 + k) % 4; 1 <= a <= 3 && a <= r0 + k && Aligned(r0 + k - a)
  {
    if (r0 + k) % 4 == 0 {
      BothAligned(r0, r1, k);
    }
    assert r0 + k - (r0 + k) % 4 == 4 * ((r0 + k) / 4);
  }

  lemma BothAligned(r0: nat, r1: nat, k: nat)
    requires Aligned(r0 + k) && Aligned(r1 + k)
    ensures Alike(r0, r1)
  {
    assert r0 == 4 * ((r0 + k) / 4 - (r1 + k) / 4) + r1;
  }

  /** Lnonwordaligned_forward */
  method NonWordAlignedForward(mem: array<bv8>, to: nat, from: nat, len: nat,
                               ghost s: Memory, ghost dst: nat, ghost src: nat, ghost n: nat)
    requires Forward(s, mem[..], dst, src, n, to, from, len) && !Alike(to, from) && 1 <= len
    modifies mem
    ensures Moved(s, mem[..], dst, src, n)
  {
    hide Forward, Moved, Aligned, Alike;
    if len < 8 {
      Bytewise2(mem, to, from, len, s, dst, src, n);
      return;
    }
    var r0, r1, r2 := WordAlign(mem, to, from, len, s, dst, src, n);
    NotAlike(to, from, len - r2);
    var r3 := r0 % 4;
    if r3 < 2 {
      Align1Forward(mem, r0, r1, r2, s, dst, src, n);
    } else if r3 == 2 {
      Align2Forward(mem, r0, r1, r2, s, dst, src, n);
    } else {
      Align3Forward(mem, r0, r1, r2, s, dst, src, n);
    }
  }

  lemma AlikeBoth(r0: nat, r1: nat)
    requires Alike(r0, r1) && r0 % 16 == 0
    ensures Aligned(r0) && Aligned(r1)
  {
    assert r0 == 4 * (4 * (r0 / 16));
  }

  /** Lnormalforwardcopy */
  method NormalForward(mem: array<bv8>, to: nat, from: nat, len: nat,
                       ghost s: Memory, ghost dst: nat, ghost src: nat, ghost n: nat)
    requires Forward(s, mem[..], dst, src, n, to, from, len) && 1 <= len
    modifies mem
    ensures Moved(s, mem[..], dst, src, n)
  {
    hide Forward, Moved, Aligned;
    if to % 4 != from % 4 {
      NonWordAlignedForward(mem, to, from, len, s, dst, src, n);
    } else if len < 64 {
      SmallForward(mem, to, from, len, s, dst, src, n);
    } else if to % 16 != 0 {
      SimilarlyUnaligned(mem, to, from, len, s, dst, src, n);
    } else {
      AlikeBoth(to, from);
      if to / 16 % 2 == 1 {
        Unaligned32(mem, to, from, len, s, dst, src, n);
      } else {
        MoreThan64Aligned(mem, to, from, len, s, dst, src, n);
      }
    }
  }

  // ----- copies in the reverse direction

  lemma RoomDown(s: Memory, now: Memory, dst: nat, src: nat, n: nat, r0: nat, r1: nat, r2: nat)
    requires Backward(s, now, dst, src, n, r0, r1, r2)
    ensures |now| == |s| && r2 <= r0 <= |now| && r2 <= r1 <= |now|
  {
  }

  lemma DoneDown(s: Memory, now: Memory, dst: nat, src: nat, n: nat, r0: nat, r1: nat)
    requires Backward(s, now, dst, src, n, r0, r1, 0)
    ensures Moved(s, now, dst, src, n)
  {
  }

  lemma AlignedDown(a: nat, i: nat)
    requires Aligned(a) && 4 * i <= a
    ensures Aligned(a - 4 * i)
  {
    var k := a / 4;
    assert a - 4 * i == 4 * (k - i);
  }

  /** ldmdb r1!, {...}; stmdb r0!, {...} */
  method BackwardWords(mem: array<bv8>, r0: nat, r1: nat, ghost r2: nat, words: nat,
                       ghost s: Memory, ghost dst: nat, ghost src: nat, ghost n: nat)
    returns (p: nat, q: nat)
    requires Backward(s, mem[..], dst, src, n, r0, r1, r2) && Aligned(r0) && Aligned(r1) && 4 * words <= r2
    modifies mem
    ensures p == r0 - 4 * words && q == r1 - 4 * words && Aligned(p) && Aligned(q)
    ensures Backward(s, mem[..], dst, src, n, p, q, r2 - 4 * words)
  {
    hide Backward, Moved, Aligned;
    ghost var before := mem[..];
    RoomDown(s, mem[..], dst, src, n, r0, r1, r2);
    AlignedDown(r0, words);
    AlignedDown(r1, words);
    p, q := r0 - 4 * words, r1 - 4 * words;
    CopyWords(mem, p, q, words);
    BackwardStep(s, before, mem[..], dst, src, n, r0, r1, r2, 4 * words);
  }

  /** Lbytewise_reverse */
  method BytewiseReverse(mem: array<bv8>, to: nat, from: nat, len: nat,
                         ghost s: Memory, ghost dst: nat, ghost src: nat, ghost n: nat)
    requires Backward(s, mem[..], dst, src, n, to, from, len) && 1 <= len
    modifies mem
    ensures Moved(s, mem[..], dst, src, n)
  {
    hide Backward, Placed, ByteReg;
    var r0, r1, r2 := to, from, len;
    while true
      invariant Backward(s, mem[..], dst, src, n, r0, r1, r2) && 1 <= r2
      decreases r2
    {
      ghost var before := mem[..];
      RoomDown(s, mem[..], dst, src, n, r0, r1, r2);
      PutByte(mem, r0 - 1, ByteReg(mem[..], r1 - 1), mem[..], r1 - 1);
      BackwardStep(s, before, mem[..], dst, src, n, r0, r1, r2, 1);
      r0, r1, r2 := r0 - 1, r1 - 1, r2 - 1;
      if r2 == 0 {
        break;
      }
    }
    DoneDown(s, mem[..], dst, src, n, r0, r1);
  }

  /** Lmorethan64_aligned_reverse */
  method MoreThan64Reverse(mem: array<bv8>, to: nat, from: nat, len: nat,
                           ghost s: Memory, ghost dst: nat, ghost src: nat, ghost n: nat)
    requires Backward(s, mem[..], dst, src, n, to, from, len) && Aligned(to) && Aligned(from) && 64 <= len
    modifies mem
    ensures Moved(s, mem[..], dst, src, n)
  {
    hide Backward, Moved, Aligned;
    var r0, r1 := to, from;
    var r2: int := len - 64;
    while true
      invariant 0 <= r2 && Backward(s, mem[..], dst, src, n, r0, r1, r2 + 64)
      invariant Aligned(r0) && Aligned(r1)
      decreases r2
    {
      r0, r1 := BackwardWords(mem, r0, r1, r2 + 64, 8, s, dst, src, n);
      r0, r1 := BackwardWords(mem, r0, r1, r2 + 32, 8, s, dst, src, n);
      r2 := r2 - 64;
      if r2 < 0 {
        break;
      }
    }
    r2 := r2 + 64;
    if r2 == 0 {
      DoneDown(s, mem[..], dst, src, n, r0, r1);
    } else {
      BytewiseReverse(mem, r0, r1, r2, s, dst, src, n);
    }
  }

  /** Lunaligned_32_reverse_similarly */
  method Unaligned32Reverse(mem: array<bv8>, to: nat, from: nat, len: nat,
                            ghost s: Memory, ghost dst: nat, ghost src: nat, ghost n: nat)
    requires Backward(s, mem[..], dst, src, n, to, from, len) && Aligned(to) && Aligned(from) && 17 <= len
    modifies mem
    ensures Moved(s, mem[..], dst, src, n)
  {
    hide Backward, Moved, Aligned;
    var r0, r1, r2 := to, from, len;
    if r0 / 16 % 2 == 1 {
      r0, r1 := BackwardWords(mem, r0, r1, r2, 4, s, dst, src, n);
      r2 := r2 - 16;
    }
    if r2 >= 64 {
      MoreThan64Reverse(mem, r0, r1, r2, s, dst, src, n);
    } else {
      BytewiseReverse(mem, r0, r1, r2, s, dst, src, n);
    }
  }

  lemma OffsetBits(r0: nat)
    ensures var m := r0 % 16; m % 8 <= r0 && Aligned(r0 - m % 8) && m == m % 8 + If(Flag(m, 8), 8)
  {
    var t, m := r0 / 16, r0 % 16;
    assert r0 - m % 8 == 4 * (4 * t + 2 * (m / 8));
  }

  /** Lunaligned_reverse_similarly */
  method UnalignedReverse(mem: array<bv8>, to: nat, from: nat, len: nat,
                          ghost s: Memory, ghost dst: nat, ghost src: nat, ghost n: nat)
    requires Backward(s, mem[..], dst, src, n, to, from, len) && Alike(to, from) && 64 <= len
    modifies mem
    ensures Moved(s, mem[..], dst, src, n)
  {
    hide Backward, Moved, Aligned, Alike, Flag;
    var m := to % 16;
    var h := m % 8;
    OffsetBits(to);
    RoomDown(s, mem[..], dst, src, n, to, from, len);
    AlikeMoves(to, from, h);
    ghost var before := mem[..];
    CopyHeadDown(mem, to, from, h);
    BackwardStep(s, before, mem[..], dst, src, n, to, from, len, h);
    var r0, r1 := to - h, from - h;
    if Flag(m, 8) {
      r0, r1 := BackwardWords(mem, r0, r1, len - h, 2, s, dst, src, n);
    }
    Unaligned32Reverse(mem, r0, r1, len - m, s, dst, src, n);
  }

  /** Loverlap_srclower */
  method OverlapSrcLower(mem: array<bv8>, to: nat, from: nat, len: nat, distance: nat)
    requires 1 <= len && from < to && to + len <= mem.Length && distance == to - from
    modifies mem
    ensures Moved(old(mem[..]), mem[..], to, from, len)
  {
    hide Backward, Moved, Aligned;
    ghost var s := mem[..];
    Begin(s, to, from, len);
    var r0, r1 := to + len, from + len;
    if (if len > 64 then distance < 64 else len < 64) {
      BytewiseReverse(mem, r0, r1, len, s, to, from, len);
    } else if r0 % 4 != r1 % 4 {
      BytewiseReverse(mem, r0, r1, len, s, to, from, len);
    } else if r0 % 16 != 0 {
      UnalignedReverse(mem, r0, r1, len, s, to, from, len);
    } else {
      AlikeBoth(r0, r1);
      if r0 / 16 % 2 == 1 {
        Unaligned32Reverse(mem, r0, r1, len, s, to, from, len);
      } else {
        MoreThan64Reverse(mem, r0, r1, len, s, to, from, len);
      }
    }
  }

  // ----- the entry points

  /** memcpy and memmove: for every length, alignment and overlap the destination gets the original bytes. */
  method Memmove(mem: array<bv8>, dst: nat, src: nat, len: nat) returns (r: nat)
    requires dst + len <= mem.Length && src + len <= mem.Length && len < 0x8000_0000
    modifies mem
    ensures r == dst && Moved(old(mem[..]), mem[..], dst, src, len)
  {
    hide Forward;
    ghost var s := mem[..];
    r := dst;
    if len == 0 || dst == src {
      return;
    }
    var r3 := if dst >= src then dst - src else src - dst;
    if r3 < len && dst > src {
      OverlapSrcLower(mem, dst, src, len, r3);
      return;
    }
    Begin(s, dst, src, len);
    hide Moved;
    if r3 >= len || r3 >= 64 {
      NormalForward(mem, dst, src, len, s, dst, src, len);
    } else if r3 >= 2 {
      Bytewise2(mem, dst, src, len, s, dst, src, len);
    } else {
      Bytewise(mem, dst, src, len, s, dst, src, len);
    }
  }

  method Bcopy(mem: array<bv8>, src: nat, dst: nat, len: nat)
    requires dst + len <= mem.Length && src + len <= mem.Length && len < 0x8000_0000
    modifies mem
    ensures Moved(old(mem[..]), mem[..], dst, src, len)
  {
    var r := Memmove(mem, dst, src, len);
  }
}
