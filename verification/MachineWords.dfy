/** Bytes, and 32-bit words made of them, low byte first. */
module MachineWords {

  type Memory = seq<bv8>

  predicate Aligned(a: nat) {
    a % 4 == 0
  }

  lemma NextAligned(a: nat)
    requires Aligned(a)
    ensures Aligned(a + 4) && (a >= 4 ==> Aligned(a - 4))
  {
  }

  lemma StepRemainder(a: nat)
    ensures !Aligned(a + 1) ==> Remainder(a + 1) == Remainder(a) + 1
  {
  }

  function Remainder(a: nat): (rem: nat)
    ensures rem < 4 && rem <= a && Aligned(a - rem)
    ensures rem == 0 <==> Aligned(a)
  {
    a % 4
  }

  function Pack(b0: bv8, b1: bv8, b2: bv8, b3: bv8): bv32 {
    (b0 as bv32) | ((b1 as bv32) << 8) | ((b2 as bv32) << 16) | ((b3 as bv32) << 24)
  }

  /** The little-endian word at address a. */
  function Word(mem: Memory, a: nat): bv32
    requires a + 4 <= |mem|
  {
    Pack(mem[a], mem[a + 1], mem[a + 2], mem[a + 3])
  }

  lemma PackInjective(a0: bv8, a1: bv8, a2: bv8, a3: bv8, b0: bv8, b1: bv8, b2: bv8, b3: bv8)
    ensures Pack(a0, a1, a2, a3) == Pack(b0, b1, b2, b3) <==> a0 == b0 && a1 == b1 && a2 == b2 && a3 == b3
  {
  }

  /** A right shift by 8 * rem. */
  function Lower(w: bv32, rem: nat): bv32
    requires rem < 4
  {
    if rem == 0 then w else if rem == 1 then w >> 8 else if rem == 2 then w >> 16 else w >> 24
  }

  /** A left shift by 32 - 8 * rem; a shift by 32 leaves nothing. */
  function Upper(w: bv32, rem: nat): bv32
    requires rem < 4
  {
    if rem == 0 then 0 else if rem == 1 then w << 24 else if rem == 2 then w << 16 else w << 8
  }

  /** The low bytes of one word followed by those of the next. */
  function Join(low: bv32, next: bv32, rem: nat): bv32
    requires rem < 4
  {
    low | Upper(next, rem)
  }

  /** Byte i of a word. */
  function ByteOf(w: bv32, i: nat): bv8
    requires i < 4
  {
    if i == 0 then (w & 0xFF) as bv8
    else if i == 1 then ((w >> 8) & 0xFF) as bv8
    else if i == 2 then ((w >> 16) & 0xFF) as bv8
    else ((w >> 24) & 0xFF) as bv8
  }

  lemma BytesOfPack(b0: bv8, b1: bv8, b2: bv8, b3: bv8)
    ensures var w := Pack(b0, b1, b2, b3);
            ByteOf(w, 0) == b0 && ByteOf(w, 1) == b1 && ByteOf(w, 2) == b2 && ByteOf(w, 3) == b3
  {
  }

  lemma ByteOfWord(mem: Memory, a: nat, i: nat)
    requires a + 4 <= |mem| && i < 4
    ensures ByteOf(Word(mem, a), i) == mem[a + i]
  {
    hide Pack, ByteOf;
    BytesOfPack(mem[a], mem[a + 1], mem[a + 2], mem[a + 3]);
  }
}
