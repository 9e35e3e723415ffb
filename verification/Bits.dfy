/**
 Addresses as numbers, taken apart bit by bit: shifting out, clearing and aligning the low bits, and
 the blocks of addresses that share a prefix.
 */
module Bits {
  import opened Arithmetic

  function Pow2(k: nat): (r: nat)
    ensures r >= 1
  {
    if k == 0 then 1 else 2 * Pow2(k - 1)
  }

  /** `x >> h` */
  function Shr(x: nat, h: nat): nat {
    if h == 0 then x else Shr(x / 2, h - 1)
  }

  /** `x & (MAX << h)`: the low `h` bits cleared. */
  function ClearLow(x: nat, h: nat): nat {
    if h == 0 then x else 2 * ClearLow(x / 2, h - 1)
  }

  /** The low `h` bits of `x` are zero. */
  predicate Aligned(x: nat, h: nat) {
    h == 0 || (x % 2 == 0 && Aligned(x / 2, h - 1))
  }

  /** The number of trailing zero bits. */
  function TrailingZeros(x: nat): nat
    requires x > 0
  {
    if x % 2 == 1 then 0 else 1 + TrailingZeros(x / 2)
  }

  /** The addresses from `start`, `2^h` of them. */
  datatype Block = Block(start: nat, h: nat) {
    function End(): int {
      start + Pow2(h) - 1
    }

    predicate Has(x: nat) {
      start <= x <= End()
    }
  }

  lemma {:induction false} Pow2Grows(j: nat, k: nat)
    requires j <= k
    ensures Pow2(j) <= Pow2(k)
    ensures j < k ==> 2 * Pow2(j) <= Pow2(k)
    decreases k
  {
    if j < k {
      Pow2Grows(j, k - 1);
    }
  }

  lemma {:induction false} Pow2Adds(j: nat, k: nat)
    ensures Pow2(j + k) == Pow2(j) * Pow2(k)
  {
    if j > 0 {
      Pow2Adds(j - 1, k);
    }
  }

  lemma Pow2Square(k: nat, v: nat)
    requires Pow2(k) == v
    ensures Pow2(2 * k) == v * v
  {
    Pow2Adds(k, k);
  }

  /** The sizes of the integer types that appear in the formats. */
  lemma WidthOf(bits: nat)
    ensures bits == 8 ==> Pow2(bits) == 0x100
    ensures bits == 16 ==> Pow2(bits) == 0x1_0000
    ensures bits == 32 ==> Pow2(bits) == 0x1_0000_0000
    ensures bits == 64 ==> Pow2(bits) == 0x1_0000_0000_0000_0000
    ensures bits == 128 ==> Pow2(bits) == 0x1_0000_0000_0000_0000_0000_0000_0000_0000
  {
    var k: nat :| k == 4;
    assert Pow2(k) == 16;
    Pow2Square(k, 16);
    Pow2Square(2 * k, 0x100);
    Pow2Square(2 * (2 * k), 0x1_0000);
    Pow2Square(2 * (2 * (2 * k)), 0x1_0000_0000);
    Pow2Square(2 * (2 * (2 * (2 * k))), 0x1_0000_0000_0000_0000);
  }

  lemma {:induction false} AlignedLess(x: nat, j: nat, k: nat)
    requires Aligned(x, k) && j <= k
    ensures Aligned(x, j)
  {
    if j > 0 {
      AlignedLess(x / 2, j - 1, k - 1);
    }
  }

  lemma {:induction false} AlignedPow2(h: nat, k: nat)
    requires h <= k
    ensures Aligned(Pow2(k), h)
  {
    if h > 0 {
      var half := Pow2(k - 1);
      assert Pow2(k) == 2 * half && Pow2(k) / 2 == half && Pow2(k) % 2 == 0;
      AlignedPow2(h - 1, k - 1);
    }
  }

  lemma {:induction false} AlignedSum(x: nat, y: nat, h: nat)
    requires Aligned(x, h) && Aligned(y, h)
    ensures Aligned(x + y, h)
  {
    if h > 0 {
      AlignedSum(x / 2, y / 2, h - 1);
      assert (x + y) / 2 == x / 2 + y / 2;
    }
  }

  /** Stepping over the largest aligned block makes the address more aligned. */
  lemma {:induction false} AlignedNext(x: nat, h: nat)
    requires Aligned(x, h) && !Aligned(x, h + 1)
    ensures Aligned(x + Pow2(h), h + 1)
  {
    if h > 0 {
      AlignedNext(x / 2, h - 1);
      assert (x + Pow2(h)) / 2 == x / 2 + Pow2(h - 1);
    }
  }

  lemma {:induction false} TrailingZerosAreAlignment(x: nat, h: nat)
    requires x > 0
    ensures Aligned(x, h) <==> h <= TrailingZeros(x)
  {
    if h > 0 && x % 2 == 0 {
      TrailingZerosAreAlignment(x / 2, h - 1);
    }
  }

  lemma {:induction false} ZeroIsAligned(h: nat)
    ensures Aligned(0, h)
  {
    if h > 0 {
      ZeroIsAligned(h - 1);
    }
  }

  /** An aligned block that starts inside the address space lies inside it. */
  lemma {:induction false} AlignedFits(x: nat, h: nat, bits: nat)
    requires Aligned(x, h) && x < Pow2(bits) && h <= bits
    ensures x + Pow2(h) <= Pow2(bits)
  {
    if h > 0 {
      AlignedFits(x / 2, h - 1, bits - 1);
    }
  }

  /** Of two aligned blocks that meet, the smaller lies in the larger. */
  lemma {:induction false} AlignedBlocksNest(a: Block, b: Block, x: nat)
    requires Aligned(a.start, a.h) && Aligned(b.start, b.h) && a.h <= b.h
    requires a.Has(x) && b.Has(x)
    ensures b.start <= a.start && a.End() <= b.End()
    decreases a.h
  {
    if a.h > 0 {
      AlignedBlocksNest(Block(a.start / 2, a.h - 1), Block(b.start / 2, b.h - 1), x / 2);
    }
  }

  /** The block of a prefix is exactly the addresses that agree with it above the low `h` bits. */
  lemma {:induction false} PrefixBlock(x: nat, y: nat, h: nat)
    ensures Block(ClearLow(x, h), h).Has(y) <==> Shr(x, h) == Shr(y, h)
    ensures Aligned(ClearLow(x, h), h) && ClearLow(x, h) <= x
  {
    if h > 0 {
      PrefixBlock(x / 2, y / 2, h - 1);
    }
  }

  /** An aligned address is its own network address. */
  lemma {:induction false} AlignedIsCleared(x: nat, h: nat)
    requires Aligned(x, h)
    ensures ClearLow(x, h) == x
  {
    if h > 0 {
      AlignedIsCleared(x / 2, h - 1);
    }
  }

  lemma {:induction false} ClearedIsShifted(x: nat, h: nat)
    ensures ClearLow(x, h) == Shr(x, h) * Pow2(h)
    ensures ClearLow(x, h) <= x < ClearLow(x, h) + Pow2(h)
  {
    if h > 0 {
      ClearedIsShifted(x / 2, h - 1);
    }
  }

  /** `Shr` divides by a power of two, and `ClearLow` rounds down to a multiple of it. */
  lemma BitsAreDivision(x: nat, h: nat)
    ensures Shr(x, h) == x / Pow2(h)
    ensures ClearLow(x, h) == x / Pow2(h) * Pow2(h)
  {
    ClearedIsShifted(x, h);
    Quotient(x, Shr(x, h), Pow2(h));
  }
}
