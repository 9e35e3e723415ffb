/**
 Turning an address range into aligned prefix blocks for the kernel's longest-prefix-match trie.
 */
module Decomposition {
  import opened Bits

  type U128 = n: int | 0 <= n < 0x1_0000_0000_0000_0000_0000_0000_0000_0000

  const U128_MAX: U128 := 0xFFFF_FFFF_FFFF_FFFF_FFFF_FFFF_FFFF_FFFF

  /** The largest power of two, up to the whole address space, that `start` is aligned to. */
  function AlignedBits(start: nat, bits: nat): nat {
    if start == 0 then bits else if TrailingZeros(start) < bits then TrailingZeros(start) else bits
  }

  /** The largest block size up to `h` with which a block from `start` does not pass `end`. */
  function Fit(start: nat, end: nat, h: nat): (r: nat)
    requires start <= end
    ensures r <= h && Block(start, r).End() <= end
    ensures r < h ==> Block(start, r + 1).End() > end
  {
    if Block(start, h).End() <= end then h
    else
      var r := Fit(start, end, h - 1);
      r
  }

  /** The greedy cover of a range. */
  function Greedy(start: nat, end: nat, bits: nat): seq<Block>
    decreases end + 1 - start
  {
    if start > end then []
    else
      var h := Fit(start, end, AlignedBits(start, bits));
      [Block(start, h)] + Greedy(start + Pow2(h), end, bits)
  }

  function PrefixBlockEnd(start: U128, blockBits: nat): (r: U128)
    requires blockBits <= 128 && start + Pow2(blockBits) - 1 <= U128_MAX
    ensures r == Block(start, blockBits).End()
  {
    if blockBits == 128 then (WidthBound(blockBits); U128_MAX) else start + (Pow2(blockBits) - 1)
  }

  lemma WidthBound(bits: nat)
    requires bits <= 128
    ensures Pow2(bits) - 1 <= U128_MAX
    ensures bits == 128 ==> Pow2(bits) - 1 == U128_MAX
  {
    WidthOf(bits);
    var full: nat :| full == 128;
    WidthOf(full);
    Pow2Grows(bits, full);
  }

  /** One prefix handed to the kernel: network address, address width, prefix length, country. */
  datatype GeoIpPrefix = GeoIpPrefix(addr: nat, bits: nat, prefix: int, country: nat)

  /** The greedy cover as prefixes. */
  function PrefixList(start: nat, end: nat, bits: nat, country: nat): seq<GeoIpPrefix>
    decreases end + 1 - start
  {
    if start > end then []
    else
      var h := Fit(start, end, AlignedBits(start, bits));
      [GeoIpPrefix(start, bits, bits - h, country)] + PrefixList(start + Pow2(h), end, bits, country)
  }

  lemma {:induction false} PrefixListIsGreedy(start: nat, end: nat, bits: nat, country: nat)
    ensures var ps, bs := PrefixList(start, end, bits, country), Greedy(start, end, bits);
            |ps| == |bs|
            && forall i | 0 <= i < |ps| :: ps[i] == GeoIpPrefix(bs[i].start, bits, bits - bs[i].h, country)
    decreases end + 1 - start
  {
    if start <= end {
      PrefixListIsGreedy(start + Pow2(Fit(start, end, AlignedBits(start, bits))), end, bits, country);
    }
  }

  /** The inner loop: lengthen the prefix until its block no longer passes the end of the range. */
  method LargestBlock(start: U128, end: U128, bits: nat) returns (prefix: nat, blockEnd: U128)
    requires 0 < bits <= 128 && start <= end < Pow2(bits)
    ensures prefix == bits - Fit(start, end, AlignedBits(start, bits))
    ensures blockEnd == Block(start, bits - prefix).End() <= end
  {
    var alignedBits := AlignedBits(start, bits);
    ghost var fit := Fit(start, end, alignedBits);
    prefix := bits - alignedBits;
    while true
      invariant bits - alignedBits <= prefix <= bits
      invariant Fit(start, end, bits - prefix) == fit
      decreases bits - prefix
    {
      var blockBits := bits - prefix;
      BlockFits(start, blockBits, bits);
      blockEnd := PrefixBlockEnd(start, blockBits);
      if blockEnd <= end {
        FitHere(start, end, blockBits);
        return;
      }
      FitStep(start, end, blockBits, blockBits - 1);
      prefix := prefix + 1;
    }
  }

  /**
   The outer loop.  Every value either loop computes fits in 128 bits, also when the range ends at the
   maximum address, and the greedy cover is appended.
   */
  method AppendRangePrefixes(first: U128, end: U128, bits: nat, country: nat, prefixes: seq<GeoIpPrefix>)
    returns (out: seq<GeoIpPrefix>)
    requires 0 < bits <= 128 && end < Pow2(bits)
    ensures out == prefixes + PrefixList(first, end, bits, country)
  {
    ghost var goal := prefixes + PrefixList(first, end, bits, country);
    var start := first;
    out := prefixes;
    while start <= end
      invariant out + PrefixList(start, end, bits, country) == goal
      decreases end + 1 - start
    {
      var prefix, blockEnd := LargestBlock(start, end, bits);
      PushKeepsGoal(out, start, end, bits, country, bits - prefix);
      out := out + [GeoIpPrefix(start, bits, prefix, country)];
      if blockEnd == U128_MAX {
        return;
      }
      start := blockEnd + 1;
    }
  }

  lemma FitHere(start: nat, end: nat, h: nat)
    requires start <= end && Block(start, h).End() <= end
    ensures Fit(start, end, h) == h
  {
  }

  lemma FitStep(start: nat, end: nat, h: nat, next: int)
    requires start <= end < Block(start, h).End() && next == h - 1
    ensures next >= 0 && Fit(start, end, h) == Fit(start, end, next)
  {
  }

  lemma PushKeepsGoal(out: seq<GeoIpPrefix>, start: nat, end: nat, bits: nat, country: nat, h: nat)
    requires start <= end && h == Fit(start, end, AlignedBits(start, bits))
    ensures out + PrefixList(start, end, bits, country)
            == (out + [GeoIpPrefix(start, bits, bits - h, country)])
               + PrefixList(Block(start, h).End() + 1, end, bits, country)
    ensures Block(start, h).End() >= end ==> PrefixList(start, end, bits, country) == [GeoIpPrefix(start, bits, bits - h, country)]
  {
  }

  /** A block no larger than its start is aligned to ends inside 128 bits. */
  lemma BlockFits(start: nat, h: nat, bits: nat)
    requires bits <= 128 && h <= AlignedBits(start, bits) && start < Pow2(bits)
    ensures start + Pow2(h) - 1 <= U128_MAX
  {
    StartIsAligned(start, bits);
    AlignedLess(start, h, AlignedBits(start, bits));
    AlignedFits(start, h, bits);
    WidthBound(bits);
  }

  lemma StartIsAligned(start: nat, bits: nat)
    ensures Aligned(start, AlignedBits(start, bits))
    ensures AlignedBits(start, bits) < bits ==> !Aligned(start, AlignedBits(start, bits) + 1)
  {
    if start == 0 {
      ZeroIsAligned(bits);
    } else {
      TrailingZerosAreAlignment(start, AlignedBits(start, bits));
      TrailingZerosAreAlignment(start, AlignedBits(start, bits) + 1);
    }
  }

  // ---------------------------------------------------------------------------------------------
  // The cover is exact: aligned, increasing, disjoint, and nothing but the range
  // ---------------------------------------------------------------------------------------------

  lemma {:induction false} BlocksAreAligned(start: nat, end: nat, bits: nat)
    ensures forall i | 0 <= i < |Greedy(start, end, bits)| ::
              Aligned(Greedy(start, end, bits)[i].start, Greedy(start, end, bits)[i].h)
              && Greedy(start, end, bits)[i].h <= bits
    decreases end + 1 - start
  {
    if start <= end {
      var h := Fit(start, end, AlignedBits(start, bits));
      StartIsAligned(start, bits);
      AlignedLess(start, h, AlignedBits(start, bits));
      BlocksAreAligned(start + Pow2(h), end, bits);
    }
  }

  /** Each block ends just before the next one starts; the first starts and the last ends with the range. */
  lemma {:induction false} BlocksTileTheRange(start: nat, end: nat, bits: nat)
    requires start <= end
    ensures var bs := Greedy(start, end, bits);
            && bs != [] && bs[0].start == start && bs[|bs| - 1].End() == end
            && forall i | 0 <= i < |bs| - 1 :: bs[i].End() + 1 == bs[i + 1].start
    decreases end + 1 - start
  {
    var h := Fit(start, end, AlignedBits(start, bits));
    var next := start + Pow2(h);
    if next <= end {
      BlocksTileTheRange(next, end, bits);
      var bs, rest := Greedy(start, end, bits), Greedy(next, end, bits);
      forall i | 0 <= i < |bs| - 1
        ensures bs[i].End() + 1 == bs[i + 1].start
      {
        if i > 0 {
          assert rest[i - 1].End() + 1 == rest[i].start;
        }
      }
    }
  }

  ghost predicate Covered(blocks: seq<Block>, x: nat) {
    exists i :: 0 <= i < |blocks| && blocks[i].Has(x)
  }

  lemma CoveredCons(b: Block, rest: seq<Block>, x: nat)
    ensures Covered([b] + rest, x) <==> b.Has(x) || Covered(rest, x)
  {
    var all := [b] + rest;
    if b.Has(x) {
      assert all[0].Has(x);
    }
    if Covered(rest, x) {
      var i :| 0 <= i < |rest| && rest[i].Has(x);
      assert all[i + 1].Has(x);
    }
  }

  /** The union of the blocks is exactly the range. */
  lemma {:induction false} CoversExactly(start: nat, end: nat, bits: nat, x: nat)
    ensures Covered(Greedy(start, end, bits), x) <==> start <= x <= end
    decreases end + 1 - start
  {
    if start <= end {
      var h := Fit(start, end, AlignedBits(start, bits));
      CoversExactly(start + Pow2(h), end, bits, x);
      CoveredCons(Block(start, h), Greedy(start + Pow2(h), end, bits), x);
    }
  }

  /** Earlier blocks lie entirely before later ones. */
  lemma {:induction false} BlocksIncrease(start: nat, end: nat, bits: nat, i: nat, j: nat)
    requires i < j < |Greedy(start, end, bits)|
    ensures Greedy(start, end, bits)[i].End() < Greedy(start, end, bits)[j].start
    decreases end + 1 - start
  {
    var first := Block(start, Fit(start, end, AlignedBits(start, bits)));
    var next := start + Pow2(first.h);
    var all, rest := Greedy(start, end, bits), Greedy(next, end, bits);
    assert all == [first] + rest;
    if i > 0 {
      BlocksIncrease(next, end, bits, i - 1, j - 1);
      assert all[i] == rest[i - 1] && all[j] == rest[j - 1];
    } else {
      StartsWithin(next, end, bits, j - 1);
      assert all[j] == rest[j - 1];
    }
  }

  lemma {:induction false} StartsWithin(start: nat, end: nat, bits: nat, j: nat)
    requires j < |Greedy(start, end, bits)|
    ensures start <= Greedy(start, end, bits)[j].start
    decreases end + 1 - start
  {
    if j > 0 {
      StartsWithin(start + Pow2(Fit(start, end, AlignedBits(start, bits))), end, bits, j - 1);
    }
  }

  // ---------------------------------------------------------------------------------------------
  // The cover is short: at most 2 * bits blocks, and no cover has fewer
  // ---------------------------------------------------------------------------------------------

  lemma AlignedBitsIsLargest(start: nat, bits: nat, h: nat)
    requires Aligned(start, h) && h <= bits
    ensures h <= AlignedBits(start, bits)
  {
    if start > 0 {
      TrailingZerosAreAlignment(start, h);
    }
  }

  lemma StillAligned(start: nat, top: nat, j: nat)
    requires Aligned(start, top) && j <= top
    ensures Aligned(start + Pow2(j), j)
  {
    AlignedLess(start, j, top);
    AlignedPow2(j, j);
    AlignedSum(start, Pow2(j), j);
  }

  /** Once the end of the range limits the block size, every block is smaller than the one before. */
  lemma {:induction false} DescendingTail(start: nat, end: nat, bits: nat, h: nat)
    requires Aligned(start, h) && h <= bits && end + 1 - start < Pow2(h)
    ensures |Greedy(start, end, bits)| <= h
    decreases end + 1 - start
  {
    if start <= end {
      var top := AlignedBits(start, bits);
      var j := Fit(start, end, top);
      StartIsAligned(start, bits);
      AlignedBitsIsLargest(start, bits, h);
      if j >= h {
        Pow2Grows(h, j);
        assert false;
      }
      StillAligned(start, top, j);
      DescendingTail(start + Pow2(j), end, bits, j);
    }
  }

  /** A first block shorter than its alignment allows is limited by the end of the range. */
  lemma EndLimited(start: nat, end: nat, bits: nat, top: nat, j: nat)
    requires start <= end && top == AlignedBits(start, bits) && j == Fit(start, end, top) < top <= bits
    ensures |Greedy(start, end, bits)| <= 1 + j
  {
    var next := start + Pow2(j);
    assert end + 1 - next < Pow2(j) by {
      assert Block(start, j + 1).End() > end;
    }
    assert Aligned(next, j) by {
      StartIsAligned(start, bits);
      StillAligned(start, top, j);
    }
    DescendingTail(next, end, bits, j);
    GreedyNext(start, end, bits, j);
  }

  lemma GreedyNext(start: nat, end: nat, bits: nat, h: nat)
    requires start <= end && h == Fit(start, end, AlignedBits(start, bits))
    ensures |Greedy(start, end, bits)| == 1 + |Greedy(start + Pow2(h), end, bits)|
  {
  }

  lemma {:induction false} CountFromAligned(start: nat, end: nat, bits: nat, h: nat)
    requires 0 < bits && h <= bits && Aligned(start, h) && end < Pow2(bits)
    ensures |Greedy(start, end, bits)| <= 2 * bits - h
    decreases end + 1 - start
  {
    if start <= end {
      var top := AlignedBits(start, bits);
      var j := Fit(start, end, top);
      AlignedBitsIsLargest(start, bits, h);
      if j < top {
        EndLimited(start, end, bits, top, j);
      } else if j < bits {
        StartIsAligned(start, bits);
        AlignedNext(start, j);
        CountFromAligned(start + Pow2(j), end, bits, j + 1);
      } else {
        assert start + Pow2(j) > end;
      }
    }
  }

  /** At most `2 * bits` blocks, whatever the range. */
  lemma AtMostTwoBlocksPerBit(start: nat, end: nat, bits: nat)
    requires 0 < bits && end < Pow2(bits)
    ensures |Greedy(start, end, bits)| <= 2 * bits
  {
    CountFromAligned(start, end, bits, 0);
  }

  /** `cover` is a list of aligned blocks whose union is exactly the range. */
  ghost predicate ExactCover(cover: seq<Block>, start: nat, end: nat, bits: nat) {
    && (forall i | 0 <= i < |cover| :: Aligned(cover[i].start, cover[i].h) && cover[i].h <= bits)
    && forall x: nat :: Covered(cover, x) <==> start <= x <= end
  }

  /** The blocks of a cover that start at `from` or later. */
  function StartingFrom(cover: seq<Block>, from: nat): seq<Block> {
    if cover == [] then []
    else if cover[0].start >= from then [cover[0]] + StartingFrom(cover[1..], from)
    else StartingFrom(cover[1..], from)
  }

  lemma {:induction false} StartingFromKeeps(cover: seq<Block>, from: nat, b: Block)
    ensures |StartingFrom(cover, from)| <= |cover|
    ensures (exists i :: 0 <= i < |cover| && cover[i].start < from) ==> |StartingFrom(cover, from)| < |cover|
    ensures b in StartingFrom(cover, from) <==> b in cover && b.start >= from
  {
    if cover != [] {
      StartingFromKeeps(cover[1..], from, b);
      assert cover == [cover[0]] + cover[1..];
      if i :| 0 <= i < |cover| && cover[i].start < from && i > 0 {
        assert cover[1..][i - 1].start < from;
      }
    }
  }

  /** In an exact cover, a block that meets the first greedy block lies inside it. */
  lemma MeetingBlockIsInside(cover: seq<Block>, start: nat, end: nat, bits: nat, b: Block)
    requires start <= end && ExactCover(cover, start, end, bits) && b in cover
    requires b.start < start + Pow2(Fit(start, end, AlignedBits(start, bits)))
    ensures start <= b.start && b.End() < start + Pow2(Fit(start, end, AlignedBits(start, bits)))
  {
    var top := AlignedBits(start, bits);
    var h := Fit(start, end, top);
    var g := Block(start, h);
    StartIsAligned(start, bits);
    AlignedLess(start, h, top);
    BlockWithinCover(cover, start, end, bits, b);
    if b.h <= h {
      AlignedBlocksNest(b, g, b.start);
    } else {
      AlignedBlocksNest(g, b, b.start);
      assert b.start == start;
      if h < top {
        Pow2Grows(h + 1, b.h);
        assert false;
      }
      AlignedLess(start, h + 1, b.h);
    }
  }

  lemma BlockWithinCover(cover: seq<Block>, start: nat, end: nat, bits: nat, b: Block)
    requires ExactCover(cover, start, end, bits) && b in cover
    ensures start <= b.start && b.End() <= end && Aligned(b.start, b.h) && b.h <= bits
  {
    var i :| 0 <= i < |cover| && cover[i] == b;
    assert b.Has(b.start) && b.Has(b.End());
    assert Covered(cover, b.start) && Covered(cover, b.End());
  }

  /** Dropping the blocks inside the first greedy block leaves an exact cover of the rest of the range. */
  lemma RestIsCovered(cover: seq<Block>, start: nat, end: nat, bits: nat, next: nat)
    requires start <= end && ExactCover(cover, start, end, bits)
    requires next == start + Pow2(Fit(start, end, AlignedBits(start, bits)))
    ensures ExactCover(StartingFrom(cover, next), next, end, bits)
  {
    var rest := StartingFrom(cover, next);
    forall i | 0 <= i < |rest|
      ensures Aligned(rest[i].start, rest[i].h) && rest[i].h <= bits
    {
      StartingFromKeeps(cover, next, rest[i]);
      assert rest[i] in rest;
      BlockWithinCover(cover, start, end, bits, rest[i]);
    }
    forall x: nat
      ensures Covered(rest, x) <==> next <= x <= end
    {
      if Covered(rest, x) {
        var i :| 0 <= i < |rest| && rest[i].Has(x);
        assert rest[i] in rest;
        StartingFromKeeps(cover, next, rest[i]);
        BlockWithinCover(cover, start, end, bits, rest[i]);
      }
      if next <= x <= end {
        assert Covered(cover, x);
        var i :| 0 <= i < |cover| && cover[i].Has(x);
        assert cover[i] in cover;
        if cover[i].start < next {
          MeetingBlockIsInside(cover, start, end, bits, cover[i]);
          assert false;
        }
        StartingFromKeeps(cover, next, cover[i]);
        var j :| 0 <= j < |rest| && rest[j] == cover[i];
        assert rest[j].Has(x);
      }
    }
  }

  /** No list of aligned blocks covers the range exactly with fewer blocks. */
  lemma {:induction false} NoShorterCover(cover: seq<Block>, start: nat, end: nat, bits: nat)
    requires ExactCover(cover, start, end, bits)
    ensures |Greedy(start, end, bits)| <= |cover|
    decreases end + 1 - start
  {
    if start <= end {
      var next := start + Pow2(Fit(start, end, AlignedBits(start, bits)));
      assert Covered(cover, start);
      var i :| 0 <= i < |cover| && cover[i].Has(start);
      StartingFromKeeps(cover, next, cover[i]);
      RestIsCovered(cover, start, end, bits, next);
      NoShorterCover(StartingFrom(cover, next), next, end, bits);
    }
  }
}
