/** Single bits of 32-bit masks, and how many there are. */
module Bits {
  predicate BitOf(x: bv32, a: bv32)
    requires a < 32
  {
    (x >> a) & 1 == 1
  }

  predicate Bit(m: bv32, i: nat)
    requires i < 32
  {
    (m >> (i as bv32)) & 1 == 1
  }

  /** 0x1 << i. */
  function Mask(i: nat): bv32
    requires i < 32
  {
    AsWord(i);
    (1 as bv32) << (i as bv32)
  }

  lemma AsWord(i: nat)
    requires i < 32
    ensures (i as bv32) as nat == i && (i as bv32) < 32
  {}

  lemma Differ(i: nat, j: nat)
    requires i < 32 && j < 32 && i != j
    ensures i as bv32 != j as bv32
  {
    AsWord(i);
    AsWord(j);
  }

  lemma OrShift(x: bv32, y: bv32, a: bv32)
    requires a < 32
    ensures ((x | y) >> a) & 1 == ((x >> a) & 1) | ((y >> a) & 1)
  {}

  lemma OneShift(a: bv32, b: bv32)
    requires a < 32 && b < 32
    ensures BitOf((1 as bv32) << b, a) <==> a == b
  {}

  lemma OneBit(x: bv32, a: bv32)
    requires a < 32
    ensures (x >> a) & 1 == 0 || (x >> a) & 1 == 1
  {}

  lemma OrBits(p: bv32, q: bv32)
    requires (p == 0 || p == 1) && (q == 0 || q == 1)
    ensures p | q == 1 <==> p == 1 || q == 1
  {}

  lemma OrWord(x: bv32, y: bv32, a: bv32)
    requires a < 32
    ensures BitOf(x | y, a) <==> BitOf(x, a) || BitOf(y, a)
  {
    OrShift(x, y, a);
    OneBit(x, a);
    OneBit(y, a);
    OrBits((x >> a) & 1, (y >> a) & 1);
  }

  lemma SetBit(m: bv32, i: nat, j: nat)
    requires i < 32 && j < 32
    ensures Bit(m | Mask(j), i) <==> Bit(m, i) || i == j
  {
    AsWord(i);
    AsWord(j);
    if i != j { Differ(i, j); }
    OrWord(m, Mask(j), i as bv32);
    OneShift(i as bv32, j as bv32);
  }

  /** How many of the bits below n are set. */
  function Count(m: bv32, n: nat): nat
    requires n <= 32
  {
    if n == 0 then 0 else Count(m, n - 1) + if Bit(m, n - 1) then 1 else 0
  }

  /** The low k bits. */
  function LowBits(k: nat): bv32
    requires k <= 32
  {
    if k == 0 then 0 else LowBits(k - 1) | Mask(k - 1)
  }

  lemma NoBit(i: nat)
    requires i < 32
    ensures !Bit(0, i)
  {
    AsWord(i);
    NoBitOf(i as bv32);
  }

  lemma NoBitOf(a: bv32)
    requires a < 32
    ensures !BitOf(0, a)
  {}

  lemma EveryBit(i: nat)
    requires i < 32
    ensures Bit(0xFFFF_FFFF, i)
  {
    AsWord(i);
    EveryBitOf(i as bv32);
  }

  lemma EveryBitOf(a: bv32)
    requires a < 32
    ensures BitOf(0xFFFF_FFFF, a)
  {}

  lemma {:induction false} LowBitsAt(k: nat, i: nat)
    requires k <= 32 && i < 32
    ensures Bit(LowBits(k), i) <==> i < k
  {
    if k == 0 {
      NoBit(i);
    } else {
      LowBitsAt(k - 1, i);
      SetBit(LowBits(k - 1), i, k - 1);
    }
  }

  lemma {:induction false} CountLowBits(k: nat, n: nat)
    requires k <= 32 && n <= 32
    ensures Count(LowBits(k), n) == if n <= k then n else k
  {
    if n > 0 {
      CountLowBits(k, n - 1);
      LowBitsAt(k, n - 1);
    }
  }

  lemma {:induction false} CountAll(n: nat)
    requires n <= 32
    ensures Count(0xFFFF_FFFF, n) == n
  {
    if n > 0 {
      CountAll(n - 1);
      EveryBit(n - 1);
    }
  }

  lemma {:induction false} CountNone(n: nat)
    requires n <= 32
    ensures Count(0, n) == 0
  {
    if n > 0 {
      CountNone(n - 1);
      NoBit(n - 1);
    }
  }
}
