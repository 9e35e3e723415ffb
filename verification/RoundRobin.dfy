/**
 Round-robin selection of an upstream server that skips unhealthy ones, and falls back to plain
 round-robin when none is healthy.
 */
module RoundRobin {
  import opened Wrappers
  import opened Arithmetic

  /** Whether the server picked by a counter value is healthy. */
  function Up(health: seq<bool>): nat -> bool {
    (p: nat) => health != [] && health[p % |health|]
  }

  /** The first counter value in `pos .. pos + tries` whose server is up. */
  function FirstUp(up: nat -> bool, pos: nat, tries: nat): (r: Option<nat>)
    ensures r.Some? ==> pos <= r.value < pos + tries && up(r.value) && forall q: nat | pos <= q < r.value :: !up(q)
    ensures r.None? ==> forall q: nat | pos <= q < pos + tries :: !up(q)
    decreases tries
  {
    if tries == 0 then None
    else if up(pos) then Some(pos)
    else FirstUp(up, pos + 1, tries - 1)
  }

  /** The counter value that picks the next of `n` servers, and the counter afterwards. */
  function Pick(up: nat -> bool, n: nat, next: nat): (nat, nat) {
    match FirstUp(up, next, n)
    case Some(pos) => (pos, pos + 1)
    case None => (next + n, next + n + 1)
  }

  class UpstreamGroup {
    const servers: seq<string>
    var health: seq<bool>
    var next: nat

    predicate Valid()
      reads this
    {
      |health| == |servers|
    }

    constructor (servers: seq<string>)
      ensures Valid() && this.servers == servers && next == 0
      ensures forall i | 0 <= i < |health| :: health[i]
    {
      this.servers := servers;
      health := seq(|servers|, _ => true);
      next := 0;
    }

    method Select() returns (r: Result<string>)
      requires Valid()
      modifies this`next
      ensures r.Ok? <==> servers != []
      ensures r.Err? ==> next == old(next)
      ensures r.Ok? ==> var (pos, after) := Pick(Up(health), |servers|, old(next));
                        r.value == servers[pos % |servers|] && next == after
    {
      if |servers| == 0 {
        return Err("upstream group has no servers");
      }
      var i := 0;
      while i < |servers|
        invariant 0 <= i <= |servers| && next == old(next) + i
        invariant FirstUp(Up(health), next, |servers| - i) == FirstUp(Up(health), old(next), |servers|)
      {
        var index := next % |servers|;
        next := next + 1;
        if health[index] {
          return Ok(servers[index]);
        }
        i := i + 1;
      }
      var index := next % |servers|;
      next := next + 1;
      return Ok(servers[index]);
    }
  }

  // ----- runs of selections with unchanged health

  /** The counter values that pick the next `k` servers. */
  function Picks(up: nat -> bool, n: nat, next: nat, k: nat): (r: seq<nat>)
    ensures |r| == k
    decreases k
  {
    if k == 0 then [] else [Pick(up, n, next).0] + Picks(up, n, Pick(up, n, next).1, k - 1)
  }

  /** The counter values of `lo .. hi` whose servers are up, in order. */
  function Lap(up: nat -> bool, lo: nat, hi: nat): seq<nat>
    requires lo <= hi
    decreases hi - lo
  {
    if lo == hi then [] else (if up(lo) then [lo] else []) + Lap(up, lo + 1, hi)
  }

  lemma {:induction false} LapHas(up: nat -> bool, lo: nat, hi: nat, p: nat)
    requires lo <= hi
    ensures p in Lap(up, lo, hi) <==> lo <= p < hi && up(p)
    decreases hi - lo
  {
    if lo < hi {
      LapHas(up, lo + 1, hi, p);
    }
  }

  lemma {:induction false} LapIncreases(up: nat -> bool, lo: nat, hi: nat, i: nat, j: nat)
    requires lo <= hi && i < j < |Lap(up, lo, hi)|
    ensures Lap(up, lo, hi)[i] < Lap(up, lo, hi)[j]
    decreases hi - lo
  {
    var rest := Lap(up, lo + 1, hi);
    if !up(lo) {
      LapIncreases(up, lo + 1, hi, i, j);
    } else if i > 0 {
      LapIncreases(up, lo + 1, hi, i - 1, j - 1);
    } else {
      assert Lap(up, lo, hi)[j] == rest[j - 1] && rest[j - 1] in rest;
      LapHas(up, lo + 1, hi, rest[j - 1]);
    }
  }

  lemma LapMembers(up: nat -> bool, lo: nat, hi: nat)
    requires lo <= hi
    ensures forall p :: p in Lap(up, lo, hi) <==> lo <= p < hi && up(p)
    ensures forall i, j | 0 <= i < j < |Lap(up, lo, hi)| :: Lap(up, lo, hi)[i] < Lap(up, lo, hi)[j]
  {
    forall p: nat
      ensures p in Lap(up, lo, hi) <==> lo <= p < hi && up(p)
    {
      LapHas(up, lo, hi, p);
    }
    forall i, j | 0 <= i < j < |Lap(up, lo, hi)|
      ensures Lap(up, lo, hi)[i] < Lap(up, lo, hi)[j]
    {
      LapIncreases(up, lo, hi, i, j);
    }
  }

  ghost predicate Periodic(up: nat -> bool, n: nat) {
    forall p: nat, q: nat :: q == p + n ==> up(q) == up(p)
  }

  lemma {:induction false} LapFromFirst(up: nat -> bool, lo: nat, hi: nat, p: nat)
    requires lo <= p < hi && up(p) && forall q: nat | lo <= q < p :: !up(q)
    ensures Lap(up, lo, hi) == [p] + Lap(up, p + 1, hi)
    decreases p - lo
  {
    if lo < p {
      LapFromFirst(up, lo + 1, hi, p);
    }
  }

  /** What lies ahead of the lap's first counter value is down. */
  lemma DownBeforeLap(up: nat -> bool, lo: nat, hi: nat, q: nat)
    requires lo <= hi && Lap(up, lo, hi) != [] && lo <= q < Lap(up, lo, hi)[0]
    ensures !up(q)
  {
    var lap := Lap(up, lo, hi);
    LapMembers(up, lo, hi);
    assert lap[0] in lap;
    assert forall i | 0 <= i < |lap| :: q < lap[i];
    assert q !in lap;
  }

  lemma ATurnEarlier(up: nat -> bool, n: nat, next: nat, p: nat)
    requires n > 0 && Periodic(up, n) && up(p)
    ensures next + n <= p ==> exists q: nat :: next <= q < p && up(q)
  {
    if next + n <= p {
      var q: nat := p - n;
      assert up(q + n) == up(q);
    }
  }

  /** If anything ahead is up, something within the next turn is. */
  lemma FirstWithinTurn(up: nat -> bool, n: nat, next: nat, hi: nat)
    requires n > 0 && next <= hi && Periodic(up, n) && Lap(up, next, hi) != []
    ensures FirstUp(up, next, n) == Some(Lap(up, next, hi)[0])
  {
    var lap := Lap(up, next, hi);
    var first := lap[0];
    LapMembers(up, next, hi);
    assert first in lap;
    forall q: nat | next <= q < first
      ensures !up(q)
    {
      DownBeforeLap(up, next, hi, q);
    }
    ATurnEarlier(up, n, next, first);
  }

  /** One selection takes the first counter value of the lap. */
  lemma PickTakesFirst(up: nat -> bool, n: nat, next: nat, hi: nat)
    requires n > 0 && next <= hi && Periodic(up, n) && Lap(up, next, hi) != []
    ensures var p := Lap(up, next, hi)[0];
            && Pick(up, n, next) == (p, p + 1)
            && next <= p < hi
            && Lap(up, next, hi) == [p] + Lap(up, p + 1, hi)
  {
    LapMembers(up, next, hi);
    var p := Lap(up, next, hi)[0];
    assert p in Lap(up, next, hi);
    FirstWithinTurn(up, n, next, hi);
    LapFromFirst(up, next, hi, p);
  }

  lemma PrefixExtends(first: nat, picks: seq<nat>, laterPicks: seq<nat>, lap: seq<nat>, rest: seq<nat>, k: nat)
    requires lap == [first] + rest && picks == [first] + laterPicks
    requires 0 < k <= |lap| && laterPicks == rest[..k - 1]
    ensures picks == lap[..k]
  {
  }

  /** If the picks after the first follow the rest of the lap, so do all. */
  lemma OnePickMore(up: nat -> bool, n: nat, next: nat, hi: nat, k: nat, p: nat)
    requires next <= p < hi && Pick(up, n, next) == (p, p + 1)
    requires Lap(up, next, hi) == [p] + Lap(up, p + 1, hi) && 0 < k <= |Lap(up, next, hi)|
    requires Picks(up, n, p + 1, k - 1) == Lap(up, p + 1, hi)[..k - 1]
    ensures Picks(up, n, next, k) == Lap(up, next, hi)[..k]
  {
    var rest, laterPicks := Lap(up, p + 1, hi), Picks(up, n, p + 1, k - 1);
    PrefixExtends(p, Picks(up, n, next, k), laterPicks, Lap(up, next, hi), rest, k);
  }

  /** While a healthy server lies ahead, picks follow the lap. */
  lemma {:induction false} PicksFollowLap(up: nat -> bool, n: nat, next: nat, hi: nat, k: nat)
    requires n > 0 && next <= hi && Periodic(up, n) && k <= |Lap(up, next, hi)|
    ensures Picks(up, n, next, k) == Lap(up, next, hi)[..k]
    decreases k
  {
    if k > 0 {
      PickTakesFirst(up, n, next, hi);
      var p := Lap(up, next, hi)[0];
      PicksFollowLap(up, n, p + 1, hi, k - 1);
      OnePickMore(up, n, next, hi, k, p);
    }
  }

  // ----- counter values and servers

  lemma ModOf(x: nat, n: nat, m: nat, r: nat)
    requires r < n && x == n * m + r
    ensures x % n == r
  {
    var width: int := n;
    Quotient(x, m, width);
  }

  /** `d` counter values after `x`, within a turn. */
  lemma TurnAfter(x: nat, d: nat, n: nat)
    requires d < n
    ensures (x + d) % n == if x % n + d < n then x % n + d else x % n + d - n
  {
    var m, r := x / n, x % n;
    assert x == n * m + r;
    if r + d < n {
      ModOf(x + d, n, m, r + d);
    } else {
      assert x + d == n * (m + 1) + (r + d - n);
      ModOf(x + d, n, m + 1, r + d - n);
    }
  }

  lemma NextTurn(x: nat, n: nat)
    requires n > 0
    ensures (x + n) % n == x % n
  {
    assert x + n == n * (x / n + 1) + x % n;
    ModOf(x + n, n, x / n + 1, x % n);
  }

  /** Two counter values less than a turn apart pick different servers. */
  lemma DifferentWithinTurn(p: nat, q: nat, n: nat)
    requires p < q < p + n
    ensures p % n != q % n
  {
    TurnAfter(p, q - p, n);
  }

  /** Every server's turn comes once in a lap. */
  lemma TurnOf(next: nat, n: nat, index: nat) returns (p: nat)
    requires index < n
    ensures next <= p < next + n && p % n == index
  {
    var r := next % n;
    p := next + if index >= r then index - r else index - r + n;
    TurnAfter(next, p - next, n);
  }

  lemma UpIsPeriodic(health: seq<bool>)
    requires health != []
    ensures Periodic(Up(health), |health|)
  {
    forall p: nat, q: nat | q == p + |health|
      ensures Up(health)(q) == Up(health)(p)
    {
      NextTurn(p, |health|);
    }
  }

  function HealthySet(health: seq<bool>): set<nat> {
    set i: nat | i < |health| && health[i]
  }

  /** The servers that counter values pick. */
  function Indices(picks: seq<nat>, n: nat): (r: seq<nat>)
    requires n > 0
    ensures |r| == |picks| && forall i | 0 <= i < |r| :: r[i] == picks[i] % n
  {
    if picks == [] then [] else [picks[0] % n] + Indices(picks[1..], n)
  }

  ghost predicate Distinct(s: seq<nat>) {
    forall i, j | 0 <= i < j < |s| :: s[i] != s[j]
  }

  /** Increasing counter values within one turn pick different servers. */
  lemma TurnIsDistinct(picks: seq<nat>, next: nat, n: nat)
    requires n > 0 && (forall i | 0 <= i < |picks| :: next <= picks[i] < next + n)
    requires forall i, j | 0 <= i < j < |picks| :: picks[i] < picks[j]
    ensures Distinct(Indices(picks, n))
  {
    var picked := Indices(picks, n);
    forall i, j | 0 <= i < j < |picked|
      ensures picked[i] != picked[j]
    {
      DifferentWithinTurn(picks[i], picks[j], n);
    }
  }

  lemma LapReachesHealthy(health: seq<bool>, next: nat, index: nat)
    requires index in HealthySet(health)
    ensures index in Indices(Lap(Up(health), next, next + |health|), |health|)
  {
    var n := |health|;
    var lap := Lap(Up(health), next, next + n);
    var p := TurnOf(next, n, index);
    assert Up(health)(p);
    LapHas(Up(health), next, next + n, p);
    PickedIndex(lap, n, p);
  }

  lemma PickedIndex(picks: seq<nat>, n: nat, p: nat)
    requires n > 0 && p in picks
    ensures p % n in Indices(picks, n)
  {
    var i :| 0 <= i < |picks| && picks[i] == p;
    assert Indices(picks, n)[i] == p % n;
  }

  lemma LapPicksHealthy(health: seq<bool>, next: nat, index: nat)
    requires health != []
    requires index in Indices(Lap(Up(health), next, next + |health|), |health|)
    ensures index in HealthySet(health)
  {
    var n := |health|;
    var lap := Lap(Up(health), next, next + n);
    var picked := Indices(lap, n);
    LapMembers(Up(health), next, next + n);
    var i :| 0 <= i < |picked| && picked[i] == index;
    assert lap[i] in lap;
  }

  lemma {:induction false} DistinctSize(s: seq<nat>, elements: set<nat>)
    requires Distinct(s) && forall x: nat :: x in s <==> x in elements
    ensures |s| == |elements|
  {
    if s == [] {
      assert elements == {};
    } else {
      assert s[0] in s;
      var rest := elements - {s[0]};
      forall x: nat
        ensures x in s[1..] <==> x in rest
      {
        assert x in s <==> x == s[0] || x in s[1..];
      }
      DistinctSize(s[1..], rest);
    }
  }

  /** A lap has one counter value for each healthy server. */
  lemma LapSize(health: seq<bool>, next: nat)
    requires health != []
    ensures var lap := Lap(Up(health), next, next + |health|);
            && |lap| == |HealthySet(health)| && Distinct(Indices(lap, |health|))
            && forall index: nat :: index in Indices(lap, |health|) <==> index in HealthySet(health)
  {
    var lap := Lap(Up(health), next, next + |health|);
    LapMembers(Up(health), next, next + |health|);
    assert forall i | 0 <= i < |lap| :: lap[i] in lap;
    TurnIsDistinct(lap, next, |health|);
    forall index: nat
      ensures index in Indices(lap, |health|) <==> index in HealthySet(health)
    {
      if index in HealthySet(health) {
        LapReachesHealthy(health, next, index);
      }
      if index in Indices(lap, |health|) {
        LapPicksHealthy(health, next, index);
      }
    }
    DistinctSize(Indices(lap, |health|), HealthySet(health));
  }

  lemma SelectionsAreLap(health: seq<bool>, next: nat)
    requires health != []
    ensures Picks(Up(health), |health|, next, |HealthySet(health)|) == Lap(Up(health), next, next + |health|)
  {
    var n := |health|;
    var lap := Lap(Up(health), next, next + n);
    LapSize(health, next);
    UpIsPeriodic(health);
    PicksFollowLap(Up(health), n, next, next + n, |lap|);
    assert lap[..|lap|] == lap;
  }

  lemma LapIsWithin(up: nat -> bool, lo: nat, hi: nat)
    requires lo <= hi
    ensures forall i | 0 <= i < |Lap(up, lo, hi)| :: lo <= Lap(up, lo, hi)[i] < hi
  {
    var lap := Lap(up, lo, hi);
    forall i | 0 <= i < |lap|
      ensures lo <= lap[i] < hi
    {
      LapHas(up, lo, hi, lap[i]);
      assert lap[i] in lap;
    }
  }

  ghost predicate Fair(health: seq<bool>, next: nat, picks: seq<nat>)
    requires health != []
  {
    && (forall i | 0 <= i < |picks| :: next <= picks[i] < next + |health|)
    && (forall i, j | 0 <= i < j < |picks| :: picks[i] < picks[j])
    && Distinct(Indices(picks, |health|))
    && forall index: nat :: index in Indices(picks, |health|) <==> index in HealthySet(health)
  }

  lemma LapIsFair(health: seq<bool>, next: nat)
    requires health != []
    ensures Fair(health, next, Lap(Up(health), next, next + |health|))
  {
    LapIsWithin(Up(health), next, next + |health|);
    LapMembers(Up(health), next, next + |health|);
    LapSize(health, next);
  }

  /**
   Fairness: while health is unchanged, any `h` consecutive selections, `h` being the number of healthy
   servers, pick each healthy server exactly once, in circular order from the counter.
   */
  lemma HealthySelectionsAreFair(health: seq<bool>, next: nat)
    requires health != []
    ensures Fair(health, next, Picks(Up(health), |health|, next, |HealthySet(health)|))
  {
    SelectionsAreLap(health, next);
    LapIsFair(health, next);
  }

  /** With no server up, `k` consecutive fallbacks pick the servers one after the other. */
  lemma {:induction false} FallbacksGoRound(up: nat -> bool, n: nat, next: nat, k: nat, i: nat)
    requires n > 0 && (forall p: nat :: !up(p)) && i < k
    ensures Picks(up, n, next, k)[i] % n == (next + i) % n
    decreases k
  {
    NextTurn(next, n);
    if i > 0 {
      FallbacksGoRound(up, n, next + n + 1, k - 1, i - 1);
      NextTurn(next + i, n);
    }
  }

  /** With no healthy server, any `n` consecutive fallbacks pick each of the `n` servers exactly once. */
  lemma FallbacksAreFair(health: seq<bool>, next: nat)
    requires health != [] && forall j | 0 <= j < |health| :: !health[j]
    ensures var n := |health|;
            var picked := Indices(Picks(Up(health), n, next, n), n);
            && (forall i | 0 <= i < n :: picked[i] == (next + i) % n)
            && Distinct(picked)
            && forall index: nat | index < n :: index in picked
  {
    var n := |health|;
    var picked := Indices(Picks(Up(health), n, next, n), n);
    forall i | 0 <= i < n
      ensures picked[i] == (next + i) % n
    {
      FallbacksGoRound(Up(health), n, next, n, i);
    }
    forall i, j | 0 <= i < j < n
      ensures picked[i] != picked[j]
    {
      DifferentWithinTurn(next + i, next + j, n);
    }
    forall index: nat | index < n
      ensures index in picked
    {
      var p := TurnOf(next, n, index);
      assert picked[p - next] == index;
    }
  }
}
