/**
 The kernel's per-source packet limiter: an integer token bucket in 64-bit arithmetic that wraps.
 Times are nanoseconds.
 */
module KernelBucket {
  import opened Wrappers

  const U64: nat := 0x1_0000_0000_0000_0000
  const U32: nat := 0x1_0000_0000
  const NS: nat := 1_000_000_000

  datatype RateBucket = RateBucket(tokens: nat, updatedNs: nat)

  function Wrap(x: nat): nat {
    x % U64
  }

  /** Subtraction modulo 2^64. */
  function Minus(a: nat, b: nat): (r: nat)
    requires a < U64 && b < U64
    ensures r < U64 && Wrap(r + b) == a
  {
    if a >= b then a - b else U64 + a - b
  }

  /** `elapsed * packets_per_second / 1000000000ULL`, the product taken modulo 2^64. */
  function Refill(elapsed: nat, pps: nat): nat {
    Wrap(elapsed * pps) / NS
  }

  /** The bucket after a packet, and whether the packet passed. */
  function Checked(bucket: Option<RateBucket>, now: nat, pps: nat, burst: nat): (Option<RateBucket>, bool)
    requires now < U64 && (bucket.Some? ==> bucket.value.updatedNs < U64)
  {
    if pps == 0 || burst == 0 then (bucket, true)
    else if bucket.None? then (Some(RateBucket(burst - 1, now)), true)
    else
      var b := bucket.value;
      var refill := Refill(Minus(now, b.updatedNs), pps);
      var sum := Wrap(b.tokens + refill);
      var tokens := if refill == 0 then b.tokens else if sum > burst then burst else sum;
      var updatedNs := if refill == 0 then b.updatedNs else now;
      if tokens == 0 then (Some(RateBucket(b.tokens, updatedNs)), false)
      else (Some(RateBucket(tokens - 1, updatedNs)), true)
  }

  class RateBuckets {
    var buckets: map<string, RateBucket>

    ghost predicate Valid()
      reads this
    {
      forall key | key in buckets :: buckets[key].updatedNs < U64
    }

    constructor ()
      ensures Valid() && buckets == map[]
    {
      buckets := map[];
    }

    /** Returns whether the packet passes; only its own key's bucket changes. */
    method CheckBucketRateLimit(key: string, pps: nat, burst: nat, now: nat) returns (pass: bool)
      requires Valid() && now < U64 && pps < U32 && burst < U32
      modifies this
      ensures Valid()
      ensures var before := if key in old(buckets) then Some(old(buckets)[key]) else None;
              var after := if key in buckets then Some(buckets[key]) else None;
              (after, pass) == Checked(before, now, pps, burst)
      ensures pps == 0 || burst == 0 ==> pass && buckets == old(buckets)
      ensures pps > 0 && burst > 0 && key !in old(buckets) ==>
                pass && buckets == old(buckets)[key := RateBucket(burst - 1, now)]
      ensures forall k :: k != key ==>
                (k in buckets <==> k in old(buckets)) && (k in buckets ==> buckets[k] == old(buckets)[k])
    {
      if pps == 0 || burst == 0 {
        return true;
      }
      if key !in buckets {
        buckets := buckets[key := RateBucket(burst - 1, now)];
        return true;
      }
      var bucket := buckets[key];
      var tokens := bucket.tokens;
      var elapsed := Minus(now, bucket.updatedNs);
      var refill := Wrap(elapsed * pps) / NS;
      assert refill == Refill(elapsed, pps);
      if refill > 0 {
        tokens := Wrap(tokens + refill);
        if tokens > burst {
          tokens := burst;
        }
        bucket := RateBucket(bucket.tokens, now);
        buckets := buckets[key := bucket];
      }
      if tokens == 0 {
        return false;
      }
      buckets := buckets[key := RateBucket(tokens - 1, bucket.updatedNs)];
      return true;
    }
  }

  // ---------------------------------------------------------------------------------------------
  // Arithmetic
  // ---------------------------------------------------------------------------------------------

  /** Whole tokens earned in `ns` nanoseconds. */
  function Earned(ns: nat, pps: nat): nat {
    ns * pps / NS
  }

  lemma EarnedAdds(a: nat, b: nat, pps: nat)
    ensures Earned(a, pps) + Earned(b, pps) <= Earned(a + b, pps)
  {
    assert (a + b) * pps == a * pps + b * pps;
  }

  lemma ProductsGrow(a: nat, b: nat, pps: nat)
    requires a <= b
    ensures a * pps <= b * pps
  {
    assert b * pps == a * pps + (b - a) * pps;
  }

  lemma EarnedGrows(a: nat, b: nat, pps: nat)
    requires a <= b
    ensures Earned(a, pps) <= Earned(b, pps)
  {
    ProductsGrow(a, b, pps);
  }

  /** A fraction of a token under way is worth at most one token more. */
  lemma EarnedWithFraction(fraction: nat, ns: nat, pps: nat)
    requires fraction < NS
    ensures (fraction + ns * pps) / NS <= Earned(ns, pps) + 1
  {
  }

  lemma WrapAdds(x: nat, d: nat)
    ensures Wrap(x + d) <= Wrap(x) + d
    ensures Wrap(x) + Wrap(d) < U64 ==> Wrap(x + d) == Wrap(x) + Wrap(d)
  {
    assert x + d == U64 * (x / U64 + d / U64) + (Wrap(x) + Wrap(d));
  }

  /** Flooring and wrapping only ever lose tokens. */
  lemma RefillIsAtMostEarned(elapsed: nat, pps: nat)
    ensures Refill(elapsed, pps) <= Earned(elapsed, pps)
    ensures Refill(elapsed, pps) <= U64 / NS
    ensures elapsed * pps < U64 ==> Refill(elapsed, pps) == Earned(elapsed, pps)
  {
    var x := elapsed * pps;
    assert x % U64 <= x;
  }

  // ---------------------------------------------------------------------------------------------
  // A stream of packets on one bucket, from its creation
  // ---------------------------------------------------------------------------------------------

  predicate Policy(pps: nat, burst: nat) {
    0 < pps < U32 && 0 < burst < U32
  }

  /** A packet at `now` takes the bucket from `b` to `c`. */
  predicate Handled(b: RateBucket, now: nat, c: RateBucket, pass: bool, pps: nat, burst: nat) {
    b.updatedNs < U64 && now < U64 && Checked(Some(b), now, pps, burst) == (Some(c), pass)
  }

  /** Packets of a new source with their arrival times (a monotone clock), the bucket after each, and which passed. */
  datatype Stream = Stream(pps: nat, burst: nat, times: seq<nat>, buckets: seq<RateBucket>, passes: seq<bool>) {
    predicate Valid() {
      && Policy(pps, burst)
      && |times| == |buckets| == |passes| > 0
      && times[0] < U64 && Checked(None, times[0], pps, burst) == (Some(buckets[0]), passes[0])
      && forall k | 0 < k < |times| ::
           times[k - 1] <= times[k] && Handled(buckets[k - 1], times[k], buckets[k], passes[k], pps, burst)
    }

    /** How many of the packets `i .. j` (without `j`) passed. */
    function Passed(i: nat, j: nat): nat
      requires i <= j <= |passes|
    {
      if i == j then 0 else Passed(i, j - 1) + if passes[j - 1] then 1 else 0
    }
  }

  /** Adding the refill to the tokens of a bucket never wraps. */
  lemma SumFits(tokens: nat, elapsed: nat, pps: nat)
    requires tokens < U32
    ensures Wrap(tokens + Refill(elapsed, pps)) == tokens + Refill(elapsed, pps)
  {
    RefillIsAtMostEarned(elapsed, pps);
    assert U32 + U64 / NS < U64;
  }

  /** One packet: tokens stay within the burst, and the tokens gained were earned since the last update. */
  lemma HandledStep(b: RateBucket, now: nat, c: RateBucket, pass: bool, pps: nat, burst: nat)
    requires Policy(pps, burst) && Handled(b, now, c, pass, pps, burst) && b.tokens < burst && b.updatedNs <= now
    ensures c.tokens < burst && c.tokens + (if pass then 1 else 0) <= burst
    ensures c.updatedNs == if Refill(now - b.updatedNs, pps) == 0 then b.updatedNs else now
    ensures c.tokens + (if pass then 1 else 0)
            <= b.tokens + if c.updatedNs == b.updatedNs then 0 else Refill(now - b.updatedNs, pps)
    ensures pass <==> b.tokens > 0 || Refill(now - b.updatedNs, pps) > 0
    ensures var filled := b.tokens + Refill(now - b.updatedNs, pps);
            c.tokens + (if pass then 1 else 0) == if filled < burst then filled else burst
  {
    SumFits(b.tokens, now - b.updatedNs, pps);
  }

  lemma {:induction false} ClockOrder(s: Stream, i: nat, j: nat)
    requires s.Valid() && i <= j < |s.times|
    ensures s.times[i] <= s.times[j]
    decreases j
  {
    if i < j {
      ClockOrder(s, i, j - 1);
    }
  }

  lemma {:induction false} BucketStays(s: Stream, j: nat)
    requires s.Valid() && j < |s.times|
    ensures s.buckets[j].tokens < s.burst && s.times[0] <= s.buckets[j].updatedNs <= s.times[j]
  {
    if j > 0 {
      BucketStays(s, j - 1);
      HandledStep(s.buckets[j - 1], s.times[j], s.buckets[j], s.passes[j], s.pps, s.burst);
    }
  }

  lemma StreamStep(s: Stream, j: nat)
    requires s.Valid() && 0 < j < |s.times|
    ensures var b, c := s.buckets[j - 1], s.buckets[j];
            && b.updatedNs <= c.updatedNs && b.updatedNs <= s.times[j]
            && (c.updatedNs == s.times[j] || (c.updatedNs == b.updatedNs && Refill(s.times[j] - b.updatedNs, s.pps) == 0))
            && c.tokens + (if s.passes[j] then 1 else 0) <= s.burst
            && c.tokens + (if s.passes[j] then 1 else 0)
               <= b.tokens + (if c.updatedNs == b.updatedNs then 0 else Refill(s.times[j] - b.updatedNs, s.pps))
            && (s.passes[j] <==> b.tokens > 0 || Refill(s.times[j] - b.updatedNs, s.pps) > 0)
  {
    BucketStays(s, j - 1);
    HandledStep(s.buckets[j - 1], s.times[j], s.buckets[j], s.passes[j], s.pps, s.burst);
  }

  /** When a packet has been handled, the wrapped product since the bucket's update is less than one token. */
  lemma UnderWay(s: Stream, i: nat)
    requires s.Valid() && i < |s.times|
    ensures s.buckets[i].updatedNs <= s.times[i] && Wrap((s.times[i] - s.buckets[i].updatedNs) * s.pps) < NS
  {
    BucketStays(s, i);
    var since := s.times[i] - s.buckets[i].updatedNs;
    if i > 0 {
      StreamStep(s, i);
    }
    NothingEarned(since, s.pps);
  }

  lemma NothingEarned(elapsed: nat, pps: nat)
    requires elapsed == 0 || Refill(elapsed, pps) == 0
    ensures Wrap(elapsed * pps) < NS
  {
  }

  /** A refill after a wait of `before`, with less than one token to show for it, and `after`. */
  lemma RefillAfterFraction(before: nat, after: nat, pps: nat)
    requires Wrap(before * pps) < NS
    ensures Refill(before + after, pps) <= Earned(after, pps) + 1
    ensures NS <= Wrap(after * pps) <= U64 - NS ==> Refill(before + after, pps) > 0
  {
    var x, d := before * pps, after * pps;
    assert (before + after) * pps == x + d;
    WrapAdds(x, d);
    EarnedWithFraction(Wrap(x), after, pps);
  }

  /**
   What packets `i .. j` have used and left: until the bucket is next updated, the tokens of packet `i`,
   which are one fewer than the burst if a fraction was under way; from then on also what was earned
   since packet `i`.
   */
  ghost predicate Paid(s: Stream, i: nat, j: nat)
    requires s.Valid() && i <= j < |s.times|
  {
    var start, b := s.buckets[i].updatedNs, s.buckets[j];
    var used := s.Passed(i, j + 1) + b.tokens;
    if b.updatedNs == start then
      used <= if start == s.times[i] then s.burst else s.burst - 1
    else
      start < b.updatedNs && s.times[i] <= b.updatedNs && used <= s.burst + Earned(b.updatedNs - s.times[i], s.pps)
  }

  lemma PaidAtFirst(s: Stream, i: nat)
    requires s.Valid() && i < |s.times|
    ensures Paid(s, i, i)
  {
    assert s.Passed(i, i + 1) == if s.passes[i] then 1 else 0;
    if i > 0 {
      StreamStep(s, i);
      BucketStays(s, i - 1);
    }
  }

  /** The first update after packet `i`. */
  lemma PaidByFirstUpdate(s: Stream, i: nat, j: nat)
    requires s.Valid() && i < j < |s.times| && Paid(s, i, j - 1)
    requires s.buckets[j - 1].updatedNs == s.buckets[i].updatedNs < s.buckets[j].updatedNs
    ensures Paid(s, i, j)
  {
    StreamStep(s, j);
    ClockOrder(s, i, j);
    UnderWay(s, i);
    var start := s.buckets[i].updatedNs;
    var before, after := s.times[i] - start, s.times[j] - s.times[i];
    assert s.times[j] - start == before + after;
    if before == 0 {
      RefillIsAtMostEarned(after, s.pps);
    } else {
      RefillAfterFraction(before, after, s.pps);
    }
  }

  lemma PaidByLaterUpdate(s: Stream, i: nat, j: nat)
    requires s.Valid() && i < j < |s.times| && Paid(s, i, j - 1)
    requires s.buckets[i].updatedNs < s.buckets[j - 1].updatedNs < s.buckets[j].updatedNs
    ensures Paid(s, i, j)
  {
    StreamStep(s, j);
    var b, c := s.buckets[j - 1].updatedNs, s.buckets[j].updatedNs;
    RefillIsAtMostEarned(c - b, s.pps);
    EarnedAdds(b - s.times[i], c - b, s.pps);
  }

  lemma {:induction false} Account(s: Stream, i: nat, j: nat)
    requires s.Valid() && i <= j < |s.times|
    ensures Paid(s, i, j)
    decreases j
  {
    if i == j {
      PaidAtFirst(s, i);
    } else {
      Account(s, i, j - 1);
      StreamStep(s, j);
      if s.buckets[j - 1].updatedNs < s.buckets[j].updatedNs {
        if s.buckets[j - 1].updatedNs == s.buckets[i].updatedNs {
          PaidByFirstUpdate(s, i, j);
        } else {
          PaidByLaterUpdate(s, i, j);
        }
      }
    }
  }

  /**
   In every window, whenever it opens in the bucket's life, the packets passed never exceed
   burst + length * pps / 10^9: flooring, the discarded remainder, the fraction of a token under way when the
   window opens and 64-bit wraparound included.
   */
  lemma WindowBound(s: Stream, i: nat, j: nat)
    requires s.Valid() && i <= j < |s.times|
    ensures s.times[i] <= s.times[j]
    ensures s.Passed(i, j + 1) <= s.burst + (s.times[j] - s.times[i]) * s.pps / NS
  {
    ClockOrder(s, i, j);
    EarnedInWindow(s, i, j, s.times[j] - s.times[i]);
  }

  lemma EarnedInWindow(s: Stream, i: nat, j: nat, length: nat)
    requires s.Valid() && i <= j < |s.times| && s.times[j] == s.times[i] + length
    ensures s.Passed(i, j + 1) <= s.burst + Earned(length, s.pps)
  {
    Account(s, i, j);
    BucketStays(s, j);
    if s.buckets[j].updatedNs != s.buckets[i].updatedNs {
      EarnedGrows(s.buckets[j].updatedNs - s.times[i], length, s.pps);
    }
  }

  /** The same since the bucket was created, when the tokens have never exceeded the burst either. */
  lemma NeverMoreThanBurstPlusRate(s: Stream, j: nat)
    requires s.Valid() && j < |s.times|
    ensures s.times[0] <= s.times[j]
    ensures s.Passed(0, j + 1) <= s.burst + (s.times[j] - s.times[0]) * s.pps / NS
    ensures s.buckets[j].tokens <= s.burst
  {
    WindowBound(s, 0, j);
    BucketStays(s, j);
  }

  /** Of packets that arrive at one instant from a new source, exactly the first `burst` pass. */
  lemma {:induction false} BurstPassesAtOnce(s: Stream, j: nat)
    requires s.Valid() && j < |s.times| && forall k | 0 <= k < |s.times| :: s.times[k] == s.times[0]
    ensures s.passes[j] <==> j < s.burst
    ensures s.buckets[j] == RateBucket(if j < s.burst then s.burst - 1 - j else 0, s.times[0])
  {
    if j > 0 {
      BurstPassesAtOnce(s, j - 1);
      assert Handled(s.buckets[j - 1], s.times[j], s.buckets[j], s.passes[j], s.pps, s.burst);
    }
  }

  /** No packet costs more than the one token it spends, and waiting never does. */
  lemma OnlySpendingCosts(s: Stream, j: nat)
    requires s.Valid() && 0 < j < |s.times|
    ensures s.buckets[j].tokens + (if s.passes[j] then 1 else 0) >= s.buckets[j - 1].tokens
  {
    BucketStays(s, j - 1);
    HandledStep(s.buckets[j - 1], s.times[j], s.buckets[j], s.passes[j], s.pps, s.burst);
  }

  /** A packet passes if and only if a token is left or the wrapped product since the last update is worth one. */
  lemma PassesIff(s: Stream, j: nat)
    requires s.Valid() && 0 < j < |s.times|
    ensures s.buckets[j - 1].updatedNs <= s.times[j]
    ensures s.passes[j]
            <==> s.buckets[j - 1].tokens > 0 || Wrap((s.times[j] - s.buckets[j - 1].updatedNs) * s.pps) >= NS
  {
    StreamStep(s, j);
  }

  /**
   A packet at least one token's time after the one before passes, whatever the bucket's age and level, unless
   the product over that gap comes within one token of a multiple of 2^64.
   */
  lemma PacedPacketPasses(s: Stream, j: nat)
    requires s.Valid() && 0 < j < |s.times|
    requires NS <= Wrap((s.times[j] - s.times[j - 1]) * s.pps) <= U64 - NS
    ensures s.passes[j]
  {
    UnderWay(s, j - 1);
    StreamStep(s, j);
    var before, after := s.times[j - 1] - s.buckets[j - 1].updatedNs, s.times[j] - s.times[j - 1];
    assert s.times[j] - s.buckets[j - 1].updatedNs == before + after;
    RefillAfterFraction(before, after, s.pps);
  }

  /** The failing case is real: after more than eight idle seconds at 2^31 packets a second, a packet is dropped. */
  lemma IdleProductWrapsToZero()
    ensures exists s: Stream ::
              && s.Valid() && |s.times| == 2 && s.pps == 0x8000_0000
              && s.times[1] - s.times[0] == 0x2_0000_0000 && !s.passes[1]
  {
    var empty := RateBucket(0, 0);
    var s := Stream(0x8000_0000, 1, [0, 0x2_0000_0000], [empty, empty], [true, false]);
    assert Handled(empty, 0x2_0000_0000, empty, false, s.pps, s.burst);
    assert s.Valid();
  }
}
