/**
 The user-space rate limiter: one token bucket per key, created full on first use, refilled by elapsed
 time, and forgotten after ten idle minutes.  Times are seconds and tokens are real numbers.
 */
module TokenBucket {
  import opened Arithmetic

  const IDLE_TTL: real := 600.0

  datatype Bucket = Bucket(tokens: real, updatedAt: real)

  /** The number of tokens a request finds at `now`; a clock that went back refills nothing. */
  function Level(b: Bucket, now: real, rate: real, burst: real): real {
    var elapsed := if now > b.updatedAt then now - b.updatedAt else 0.0;
    var filled := b.tokens + elapsed * rate;
    if filled < burst then filled else burst
  }

  function Allowed(b: Bucket, now: real, rate: real, burst: real): (Bucket, bool) {
    var level := Level(b, now, rate, burst);
    if level >= 1.0 then (Bucket(level - 1.0, now), true) else (Bucket(level, now), false)
  }

  function Fresh(burst: real, now: real): Bucket {
    Bucket(burst, now)
  }

  /** A bucket's configuration: it limits only when both numbers are positive. */
  datatype Policy = Policy(rate: real, burst: real) {
    predicate Limits() {
      rate > 0.0 && burst > 0.0
    }
  }

  /** The bucket a request on `key` uses. */
  function BucketFor(buckets: map<string, Bucket>, key: string, now: real, p: Policy): Bucket {
    if key in buckets then buckets[key] else Fresh(p.burst, now)
  }

  function AfterRequest(buckets: map<string, Bucket>, key: string, now: real, p: Policy): (map<string, Bucket>, bool) {
    if !p.Limits() then (buckets, true)
    else
      var (b, ok) := Allowed(BucketFor(buckets, key, now, p), now, p.rate, p.burst);
      (buckets[key := b], ok)
  }

  /** `duration_since` saturates, so a bucket from the future is kept. */
  function Pruned(buckets: map<string, Bucket>, now: real): map<string, Bucket> {
    map key | key in buckets && now - buckets[key].updatedAt <= IDLE_TTL :: buckets[key]
  }

  class SecurityBuckets {
    var buckets: map<string, Bucket>

    constructor ()
      ensures buckets == map[]
    {
      buckets := map[];
    }

    method AllowBucket(key: string, now: real, p: Policy) returns (ok: bool)
      modifies this
      ensures (buckets, ok) == AfterRequest(old(buckets), key, now, p)
      ensures p.rate <= 0.0 || p.burst <= 0.0 ==> ok && buckets == old(buckets)
      ensures forall k | k != key :: (k in buckets <==> k in old(buckets)) && (k in buckets ==> buckets[k] == old(buckets)[k])
      ensures p.rate > 0.0 && p.burst > 0.0 ==> key in buckets && buckets[key].updatedAt == now
      ensures p.rate > 0.0 && p.burst > 0.0 && key in old(buckets) && now <= old(buckets)[key].updatedAt ==>
                var left := old(buckets)[key].tokens;
                buckets[key].tokens == (if left < p.burst then left else p.burst) - (if ok then 1.0 else 0.0)
    {
      if p.rate <= 0.0 || p.burst <= 0.0 {
        return true;
      }
      if key !in buckets {
        buckets := buckets[key := Fresh(p.burst, now)];
      }
      var b := buckets[key];
      var elapsed := if now > b.updatedAt then now - b.updatedAt else 0.0;
      var tokens := b.tokens + elapsed * p.rate;
      if tokens >= p.burst {
        tokens := p.burst;
      }
      assert tokens == Level(b, now, p.rate, p.burst);
      ok := tokens >= 1.0;
      if ok {
        tokens := tokens - 1.0;
      }
      buckets := buckets[key := Bucket(tokens, now)];
      assert buckets == old(buckets)[key := Bucket(tokens, now)];
    }

    method PruneExpired(now: real)
      modifies this
      ensures buckets == Pruned(old(buckets), now)
      ensures forall key :: key in buckets <==> key in old(buckets) && now - old(buckets)[key].updatedAt <= IDLE_TTL
      ensures forall key | key in buckets :: buckets[key] == old(buckets)[key]
    {
      buckets := Pruned(buckets, now);
    }
  }

  // ---------------------------------------------------------------------------------------------
  // Which requests a bucket allows, in terms of the requests alone
  // ---------------------------------------------------------------------------------------------

  predicate Monotone(times: seq<real>) {
    forall i, j | 0 <= i < j < |times| :: times[i] <= times[j]
  }

  /** The bucket before request `j` of a stream that begins by creating it. */
  function BucketBefore(times: seq<real>, rate: real, burst: real, j: nat): Bucket
    requires j < |times|
  {
    if j == 0 then Fresh(burst, times[0])
    else Allowed(BucketBefore(times, rate, burst, j - 1), times[j - 1], rate, burst).0
  }

  predicate Decision(times: seq<real>, rate: real, burst: real, j: nat)
    requires j < |times|
  {
    Allowed(BucketBefore(times, rate, burst, j), times[j], rate, burst).1
  }

  /** How many of the requests `i .. j` (without `j`) were allowed. */
  function AllowedIn(times: seq<real>, rate: real, burst: real, i: nat, j: nat): nat
    requires i <= j <= |times|
  {
    if i == j then 0
    else AllowedIn(times, rate, burst, i, j - 1) + if Decision(times, rate, burst, j - 1) then 1 else 0
  }

  /** What the window that starts at request `i` leaves for request `j`. */
  function Headroom(times: seq<real>, rate: real, burst: real, i: nat, j: nat): real
    requires i <= j < |times|
  {
    burst + rate * (times[j] - times[i]) - AllowedIn(times, rate, burst, i, j) as real
  }

  function LevelAt(times: seq<real>, rate: real, burst: real, j: nat): real
    requires j < |times|
  {
    Level(BucketBefore(times, rate, burst, j), times[j], rate, burst)
  }

  function Capped(filled: real, burst: real): real {
    if filled < burst then filled else burst
  }

  lemma LevelStep(times: seq<real>, rate: real, burst: real, j: nat)
    requires 0 < j < |times| && Monotone(times)
    ensures var spent := if Decision(times, rate, burst, j - 1) then 1.0 else 0.0;
            LevelAt(times, rate, burst, j)
            == Capped(LevelAt(times, rate, burst, j - 1) - spent + rate * (times[j] - times[j - 1]), burst)
  {
    var before, b := BucketBefore(times, rate, burst, j - 1), BucketBefore(times, rate, burst, j);
    var level, next := LevelAt(times, rate, burst, j - 1), LevelAt(times, rate, burst, j);
    var allowed, gained := Decision(times, rate, burst, j - 1), rate * (times[j] - times[j - 1]);
    NextLevel(before, b, times[j - 1], times[j], rate, burst, level, allowed, gained, next);
  }

  /** The level at a request, from the level at the request before. */
  lemma NextLevel(before: Bucket, b: Bucket, now: real, later: real, rate: real, burst: real,
                  level: real, allowed: bool, gained: real, next: real)
    requires (b, allowed) == Allowed(before, now, rate, burst) && now <= later
    requires level == Level(before, now, rate, burst) && next == Level(b, later, rate, burst)
    requires gained == rate * (later - now)
    ensures next == Capped(level - (if allowed then 1.0 else 0.0) + gained, burst)
  {
    TimesCommutes(rate, later - now);
  }

  lemma Lengthen(length: real, more: real, longer: real, rate: real)
    requires longer == length + more
    ensures rate * longer == rate * length + rate * more
  {
    TimesAdd(length, more, rate);
    TimesCommutes(rate, length);
    TimesCommutes(rate, more);
    TimesCommutes(rate, longer);
  }

  lemma HeadroomStep(times: seq<real>, rate: real, burst: real, i: nat, j: nat)
    requires i < j < |times|
    ensures var spent := if Decision(times, rate, burst, j - 1) then 1.0 else 0.0;
            Headroom(times, rate, burst, i, j)
            == Headroom(times, rate, burst, i, j - 1) - spent + rate * (times[j] - times[j - 1])
  {
    Lengthen(times[j - 1] - times[i], times[j] - times[j - 1], times[j] - times[i], rate);
  }

  lemma {:induction false} LevelBelowHeadroom(times: seq<real>, rate: real, burst: real, i: nat, j: nat)
    requires i <= j < |times| && Monotone(times)
    ensures LevelAt(times, rate, burst, j) <= Headroom(times, rate, burst, i, j)
    decreases j
  {
    if i < j {
      LevelBelowHeadroom(times, rate, burst, i, j - 1);
      LevelStep(times, rate, burst, j);
      HeadroomStep(times, rate, burst, i, j);
    } else {
      EmptyWindow(times, rate, burst, j);
    }
  }

  lemma EmptyWindow(times: seq<real>, rate: real, burst: real, j: nat)
    requires j < |times|
    ensures Headroom(times, rate, burst, j, j) == burst
    ensures LevelAt(times, rate, burst, j) <= burst
  {
    assert rate * (times[j] - times[j]) == 0.0;
  }

  lemma {:induction false} TightWindow(times: seq<real>, rate: real, burst: real, j: nat) returns (tight: nat)
    requires j < |times| && Monotone(times)
    ensures tight <= j && LevelAt(times, rate, burst, j) == Headroom(times, rate, burst, tight, j)
  {
    EmptyWindow(times, rate, burst, j);
    if j == 0 || LevelAt(times, rate, burst, j) == burst {
      tight := j;
    } else {
      tight := TightWindow(times, rate, burst, j - 1);
      LevelStep(times, rate, burst, j);
      HeadroomStep(times, rate, burst, tight, j);
    }
  }

  /** The token level is the smallest headroom of any window that ends at the request. */
  lemma LevelIsLeastHeadroom(times: seq<real>, rate: real, burst: real, j: nat) returns (tight: nat)
    requires j < |times| && Monotone(times)
    ensures forall i: nat | i <= j :: LevelAt(times, rate, burst, j) <= Headroom(times, rate, burst, i, j)
    ensures tight <= j && LevelAt(times, rate, burst, j) == Headroom(times, rate, burst, tight, j)
  {
    tight := TightWindow(times, rate, burst, j);
    forall i: nat | i <= j
      ensures LevelAt(times, rate, burst, j) <= Headroom(times, rate, burst, i, j)
    {
      LevelBelowHeadroom(times, rate, burst, i, j);
    }
  }

  /**
   Exactness: a request is allowed if and only if, in every window of requests that ends with it, those
   already allowed plus this one stay within burst + rate * length.
   */
  lemma AllowedIffEveryWindowConforms(times: seq<real>, rate: real, burst: real, j: nat)
    requires j < |times| && Monotone(times)
    ensures Decision(times, rate, burst, j)
            <==> forall i: nat | i <= j ::
                   AllowedIn(times, rate, burst, i, j) as real + 1.0 <= burst + rate * (times[j] - times[i])
  {
    var tight := LevelIsLeastHeadroom(times, rate, burst, j);
    if forall i: nat | i <= j ::
         AllowedIn(times, rate, burst, i, j) as real + 1.0 <= burst + rate * (times[j] - times[i]) {
      assert AllowedIn(times, rate, burst, tight, j) as real + 1.0 <= burst + rate * (times[j] - times[tight]);
      assert Headroom(times, rate, burst, tight, j) >= 1.0;
    }
    if Decision(times, rate, burst, j) {
      forall i: nat | i <= j
        ensures AllowedIn(times, rate, burst, i, j) as real + 1.0 <= burst + rate * (times[j] - times[i])
      {
        assert LevelAt(times, rate, burst, j) <= Headroom(times, rate, burst, i, j);
      }
    }
  }

  lemma {:induction false} LevelNonNegative(times: seq<real>, rate: real, burst: real, j: nat)
    requires j < |times| && Monotone(times) && rate >= 0.0 && burst >= 0.0
    ensures LevelAt(times, rate, burst, j) >= 0.0
  {
    if j > 0 {
      LevelNonNegative(times, rate, burst, j - 1);
      LevelStep(times, rate, burst, j);
      var more := times[j] - times[j - 1];
      TimesNonNegative(rate, more);
    } else {
      EmptyWindow(times, rate, burst, j);
    }
  }

  /** Upper bound: no window of the stream, of length T, allows more than burst + rate * T requests. */
  lemma WindowBound(times: seq<real>, rate: real, burst: real, i: nat, j: nat)
    requires i <= j < |times| && Monotone(times) && rate >= 0.0 && burst >= 0.0
    ensures AllowedIn(times, rate, burst, i, j + 1) as real <= burst + rate * (times[j] - times[i])
  {
    LevelNonNegative(times, rate, burst, j);
    LevelBelowHeadroom(times, rate, burst, i, j);
  }

  /** The requests of every window fit the burst and the rate. */
  ghost predicate Conforming(times: seq<real>, rate: real, burst: real) {
    forall i: nat, j: nat | i <= j < |times| :: (j - i + 1) as real <= burst + rate * (times[j] - times[i])
  }

  lemma {:induction false} AllowedAtMostAll(times: seq<real>, rate: real, burst: real, i: nat, j: nat)
    requires i <= j <= |times|
    ensures AllowedIn(times, rate, burst, i, j) <= j - i
    ensures (forall k: nat | i <= k < j :: Decision(times, rate, burst, k)) ==> AllowedIn(times, rate, burst, i, j) == j - i
    decreases j
  {
    if i < j {
      AllowedAtMostAll(times, rate, burst, i, j - 1);
    }
  }

  /** A stream is never refused if and only if it conforms. */
  lemma NeverRefusedIffConforming(times: seq<real>, rate: real, burst: real)
    requires Monotone(times)
    ensures (forall j: nat | j < |times| :: Decision(times, rate, burst, j)) <==> Conforming(times, rate, burst)
  {
    if forall j: nat | j < |times| :: Decision(times, rate, burst, j) {
      forall i: nat, j: nat | i <= j < |times|
        ensures (j - i + 1) as real <= burst + rate * (times[j] - times[i])
      {
        AllowedAtMostAll(times, rate, burst, i, j);
        AllowedIffEveryWindowConforms(times, rate, burst, j);
        assert (j - i) as real + 1.0 == (j - i + 1) as real;
      }
    }
    if Conforming(times, rate, burst) {
      forall j: nat | j < |times|
        ensures Decision(times, rate, burst, j)
      {
        forall i: nat | i <= j
          ensures AllowedIn(times, rate, burst, i, j) as real + 1.0 <= burst + rate * (times[j] - times[i])
        {
          AllowedAtMostAll(times, rate, burst, i, j);
          assert (j - i + 1) as real <= burst + rate * (times[j] - times[i]);
        }
        AllowedIffEveryWindowConforms(times, rate, burst, j);
      }
    }
  }
}
