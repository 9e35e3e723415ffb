/**
 Forgetting idle buckets: exactly when the pruning of the bucket map can be observed.
 */
module BucketPruning {
  import opened Arithmetic
  import opened TokenBucket

  datatype Op = Request(key: string, now: real) | Prune(now: real)

  type Buckets = map<string, Bucket>

  type Policies = string -> Policy

  predicate MonotoneOps(ops: seq<Op>) {
    forall i, j | 0 <= i < j < |ops| :: ops[i].now <= ops[j].now
  }

  function Next(m: Buckets, op: Op, policies: Policies, pruning: bool): Buckets {
    match op
    case Request(key, now) => AfterRequest(m, key, now, policies(key)).0
    case Prune(now) => if pruning then Pruned(m, now) else m
  }

  function Answer(m: Buckets, op: Op, policies: Policies): seq<bool> {
    match op
    case Request(key, now) => [AfterRequest(m, key, now, policies(key)).1]
    case Prune(_) => []
  }

  /** The answers a run of operations gives, with its prunes carried out or left out. */
  function Answers(m: Buckets, ops: seq<Op>, policies: Policies, pruning: bool): seq<bool>
    decreases |ops|
  {
    if ops == [] then []
    else Answer(m, ops[0], policies) + Answers(Next(m, ops[0], policies, pruning), ops[1..], policies, pruning)
  }

  function After(m: Buckets, ops: seq<Op>, policies: Policies, pruning: bool): Buckets
    decreases |ops|
  {
    if ops == [] then m else After(Next(m, ops[0], policies, pruning), ops[1..], policies, pruning)
  }

  /** Ten idle minutes refill the bucket, or it never holds a whole token anyway. */
  predicate Forgettable(p: Policy) {
    !p.Limits() || p.burst < 1.0 || p.burst <= IDLE_TTL * p.rate
  }

  ghost predicate Unobservable(policies: Policies) {
    forall ops: seq<Op> | MonotoneOps(ops) ::
      Answers(map[], ops, policies, true) == Answers(map[], ops, policies, false)
  }

  // ----- forgettable policies: pruning cannot be observed

  predicate Sane(b: Bucket, now: real) {
    b.updatedAt <= now && b.tokens >= 0.0
  }

  predicate FullAt(b: Bucket, now: real, p: Policy) {
    b.tokens + (now - b.updatedAt) * p.rate >= p.burst
  }

  /** The pruned map `m` shows the same as the unpruned map `u` for one key. */
  predicate Agree(m: Buckets, u: Buckets, key: string, now: real, p: Policy) {
    || p.burst < 1.0
    || !p.Limits()
    || (key in m && key in u && m[key] == u[key] && Sane(u[key], now))
    || (key !in m && key !in u)
    || (key !in m && key in u && Sane(u[key], now) && FullAt(u[key], now, p))
  }

  ghost predicate AllAgree(m: Buckets, u: Buckets, now: real, policies: Policies) {
    forall key: string :: Agree(m, u, key, now, policies(key))
  }

  lemma SaneAfterRequest(b: Bucket, now: real, p: Policy)
    requires p.Limits() && Sane(b, now)
    ensures Sane(Allowed(b, now, p.rate, p.burst).0, now)
  {
    TimesNonNegative(now - b.updatedAt, p.rate);
  }

  lemma FullLater(b: Bucket, now: real, later: real, p: Policy)
    requires p.Limits() && FullAt(b, now, p) && now <= later
    ensures FullAt(b, later, p)
  {
    TimesGrows(now - b.updatedAt, later - b.updatedAt, p.rate);
  }

  lemma AgreeLater(m: Buckets, u: Buckets, key: string, now: real, later: real, p: Policy)
    requires Agree(m, u, key, now, p) && now <= later
    ensures Agree(m, u, key, later, p)
  {
    if p.Limits() && p.burst >= 1.0 && key in u {
      assert Sane(u[key], later);
      if key !in m {
        FullLater(u[key], now, later, p);
      }
    }
  }

  /** Ten idle minutes fill a sane bucket of a forgettable policy. */
  lemma IdleIsFull(b: Bucket, now: real, p: Policy)
    requires p.Limits() && p.burst <= IDLE_TTL * p.rate && Sane(b, now) && now - b.updatedAt > IDLE_TTL
    ensures FullAt(b, now, p)
  {
    var idle := now - b.updatedAt;
    TimesGrows(IDLE_TTL, idle, p.rate);
    assert idle * p.rate >= p.burst;
    assert b.tokens + idle * p.rate >= p.burst;
  }

  lemma RequestKeepsAgreement(m: Buckets, u: Buckets, key: string, now: real, p: Policy)
    requires Agree(m, u, key, now, p)
    ensures AfterRequest(m, key, now, p).1 == AfterRequest(u, key, now, p).1
    ensures Agree(AfterRequest(m, key, now, p).0, AfterRequest(u, key, now, p).0, key, now, p)
  {
    if p.Limits() && p.burst >= 1.0 {
      if key !in u {
        SaneAfterRequest(Fresh(p.burst, now), now, p);
      } else {
        SaneAfterRequest(u[key], now, p);
        if key !in m {
          FullIsFresh(u[key], now, p);
        }
      }
    }
  }

  /** A full bucket answers like a fresh one, and both are the same afterwards. */
  lemma FullIsFresh(b: Bucket, now: real, p: Policy)
    requires p.Limits() && Sane(b, now) && FullAt(b, now, p)
    ensures Allowed(b, now, p.rate, p.burst) == Allowed(Fresh(p.burst, now), now, p.rate, p.burst)
  {
    assert Level(b, now, p.rate, p.burst) == p.burst;
    assert Level(Fresh(p.burst, now), now, p.rate, p.burst) == p.burst;
  }

  lemma PruneKeepsAgreement(m: Buckets, u: Buckets, key: string, now: real, p: Policy)
    requires Agree(m, u, key, now, p) && Forgettable(p)
    ensures Agree(Pruned(m, now), u, key, now, p)
  {
    if p.Limits() && p.burst >= 1.0 && key in m && now - m[key].updatedAt > IDLE_TTL {
      IdleIsFull(u[key], now, p);
    }
  }

  lemma {:induction false} AgreementGivesSameAnswers(m: Buckets, u: Buckets, now: real, ops: seq<Op>, policies: Policies)
    requires AllAgree(m, u, now, policies) && MonotoneOps(ops) && (ops != [] ==> now <= ops[0].now)
    requires forall key: string :: Forgettable(policies(key))
    ensures Answers(m, ops, policies, true) == Answers(u, ops, policies, false)
    decreases |ops|
  {
    if ops != [] {
      var op := ops[0];
      var m', u' := Next(m, op, policies, true), Next(u, op, policies, false);
      forall key: string
        ensures Agree(m', u', key, op.now, policies(key))
      {
        AgreeLater(m, u, key, now, op.now, policies(key));
        if op.Prune? {
          PruneKeepsAgreement(m, u, key, op.now, policies(key));
        } else if op.key == key {
          RequestKeepsAgreement(m, u, key, op.now, policies(key));
        }
      }
      if op.Request? {
        AgreeLater(m, u, op.key, now, op.now, policies(op.key));
        RequestKeepsAgreement(m, u, op.key, op.now, policies(op.key));
      }
      AgreementGivesSameAnswers(m', u', op.now, ops[1..], policies);
    }
  }

  // ----- any other policy: some run observes the pruning

  function Requests(key: string, times: seq<real>): seq<Op> {
    seq(|times|, i requires 0 <= i < |times| => Request(key, times[i]))
  }

  /** A stream of requests on one bucket. */
  function Decisions(b: Bucket, times: seq<real>, p: Policy): seq<bool>
    decreases |times|
  {
    if times == [] then []
    else
      var (c, ok) := Allowed(b, times[0], p.rate, p.burst);
      [ok] + Decisions(c, times[1..], p)
  }

  function BucketAfter(b: Bucket, times: seq<real>, p: Policy): Bucket
    decreases |times|
  {
    if times == [] then b else BucketAfter(Allowed(b, times[0], p.rate, p.burst).0, times[1..], p)
  }

  predicate StartsAt(times: seq<real>, t: real) {
    Monotone(times) && (times != [] ==> t <= times[0])
  }

  lemma {:induction false} RequestsUseOneBucket(m: Buckets, key: string, times: seq<real>, policies: Policies, pruning: bool)
    requires key in m && policies(key).Limits()
    ensures Answers(m, Requests(key, times), policies, pruning) == Decisions(m[key], times, policies(key))
    ensures After(m, Requests(key, times), policies, pruning) == m[key := BucketAfter(m[key], times, policies(key))]
    decreases |times|
  {
    if times != [] {
      var p := policies(key);
      var c := Allowed(m[key], times[0], p.rate, p.burst).0;
      assert Requests(key, times)[1..] == Requests(key, times[1..]);
      RequestsUseOneBucket(m[key := c], key, times[1..], policies, pruning);
    } else {
      assert m == m[key := m[key]];
    }
  }

  lemma {:induction false} AnswersConcat(m: Buckets, a: seq<Op>, b: seq<Op>, policies: Policies, pruning: bool)
    ensures Answers(m, a + b, policies, pruning)
            == Answers(m, a, policies, pruning) + Answers(After(m, a, policies, pruning), b, policies, pruning)
    decreases |a|
  {
    if a == [] {
      assert a + b == b;
    } else {
      assert (a + b)[1..] == a[1..] + b;
      AnswersConcat(Next(m, a[0], policies, pruning), a[1..], b, policies, pruning);
    }
  }

  /** Requests that use up a bucket to the last token. */
  lemma {:induction false} Drain(b: Bucket, p: Policy) returns (times: seq<real>)
    requires p.Limits() && p.burst >= 1.0 && 0.0 <= b.tokens <= p.burst
    ensures StartsAt(times, b.updatedAt) && times != []
    ensures BucketAfter(b, times, p) == Bucket(0.0, times[|times| - 1])
    decreases b.tokens.Floor
  {
    if b.tokens >= 1.0 {
      var c := Allowed(b, b.updatedAt, p.rate, p.burst).0;
      assert c == Bucket(b.tokens - 1.0, b.updatedAt);
      if c.tokens == 0.0 {
        times := [b.updatedAt];
        assert BucketAfter(b, times, p) == BucketAfter(c, [], p);
      } else {
        var rest := Drain(c, p);
        times := [b.updatedAt] + rest;
        assert times[1..] == rest;
      }
    } else {
      var wait := (1.0 - b.tokens) / p.rate;
      assert wait * p.rate == 1.0 - b.tokens;
      times := [b.updatedAt + wait];
      assert BucketAfter(b, times, p) == BucketAfter(Allowed(b, times[0], p.rate, p.burst).0, [], p);
    }
  }

  /** Two buckets that differ in tokens can be told apart by requests. */
  lemma {:induction false} Distinguish(b: Bucket, c: Bucket, p: Policy) returns (times: seq<real>)
    requires p.Limits() && p.burst >= 1.0 && b.updatedAt == c.updatedAt && 0.0 <= b.tokens < c.tokens <= p.burst
    ensures StartsAt(times, b.updatedAt) && times != []
    ensures Decisions(b, times, p) != Decisions(c, times, p)
    decreases b.tokens.Floor
  {
    var t := b.updatedAt;
    if c.tokens >= 1.0 {
      if b.tokens < 1.0 {
        times := [t];
        assert Decisions(b, times, p)[0] != Decisions(c, times, p)[0];
      } else {
        var b', c' := Bucket(b.tokens - 1.0, t), Bucket(c.tokens - 1.0, t);
        var rest := Distinguish(b', c', p);
        times := [t] + rest;
        assert times[1..] == rest;
        assert Decisions(b, times, p)[1..] == Decisions(b', rest, p);
        assert Decisions(c, times, p)[1..] == Decisions(c', rest, p);
      }
    } else {
      var wait := (1.0 - c.tokens) / p.rate;
      assert wait * p.rate == 1.0 - c.tokens;
      times := [t + wait];
      assert Decisions(b, times, p)[0] != Decisions(c, times, p)[0];
    }
  }

  /** Past the pruning moment `t`, an emptied bucket and its brought-forward form decide alike. */
  lemma SameFromThere(b: Bucket, c: Bucket, t: real, times: seq<real>, p: Policy)
    requires StartsAt(times, t) && times != []
    requires Level(b, times[0], p.rate, p.burst) == Level(c, times[0], p.rate, p.burst)
    ensures Decisions(b, times, p) == Decisions(c, times, p)
  {
  }

  /** Creating the bucket and using it is using a bucket that was already there, full. */
  lemma CreationIsInvisible(m: Buckets, key: string, now: real, p: Policy)
    requires key !in m && p.Limits()
    ensures AfterRequest(m, key, now, p) == AfterRequest(m[key := Fresh(p.burst, now)], key, now, p)
  {
    var first := Fresh(p.burst, now);
    var c := Allowed(first, now, p.rate, p.burst).0;
    assert m[key := c] == m[key := first][key := c];
  }

  lemma FreshRequests(key: string, times: seq<real>, policies: Policies, pruning: bool, m: Buckets)
    requires key !in m && policies(key).Limits() && times != []
    ensures Answers(m, Requests(key, times), policies, pruning)
            == Decisions(Fresh(policies(key).burst, times[0]), times, policies(key))
    ensures After(m, Requests(key, times), policies, pruning)
            == m[key := BucketAfter(Fresh(policies(key).burst, times[0]), times, policies(key))]
  {
    var p := policies(key);
    var first := Fresh(p.burst, times[0]);
    CreationIsInvisible(m, key, times[0], p);
    RequestsUseOneBucket(m[key := first], key, times, policies, pruning);
    var last := BucketAfter(first, times, p);
    assert m[key := first][key := last] == m[key := last];
  }

  /** A moment after which the bucket has been idle too long but is not yet full again. */
  lemma PruningMoment(t: real, p: Policy) returns (late: real, left: real)
    requires p.Limits() && p.burst > IDLE_TTL * p.rate
    ensures late - t > IDLE_TTL && left == (late - t) * p.rate && 0.0 < left < p.burst
  {
    var spare := (p.burst - IDLE_TTL * p.rate) / (2.0 * p.rate);
    HalfTheGap(p.burst - IDLE_TTL * p.rate, p.rate, spare);
    var idle := IDLE_TTL + spare;
    late := t + idle;
    left := (late - t) * p.rate;
    TimesAdd(IDLE_TTL, spare, p.rate);
  }

  lemma HalfTheGap(gap: real, rate: real, spare: real)
    requires gap > 0.0 && rate > 0.0 && spare == gap / (2.0 * rate)
    ensures spare > 0.0 && spare * rate == gap / 2.0
  {
    assert spare * (2.0 * rate) == gap;
  }

  lemma RunOfThree(key: string, a: seq<real>, late: real, b: seq<real>)
    requires a != [] && StartsAt(a, 0.0) && a[|a| - 1] <= late && StartsAt(b, late)
    ensures MonotoneOps(Requests(key, a) + [Prune(late)] + Requests(key, b))
  {
    var ops := Requests(key, a) + [Prune(late)] + Requests(key, b);
    var last := a[|a| - 1];
    forall i, j | 0 <= i < j < |ops|
      ensures ops[i].now <= ops[j].now
    {
      assert i < |a| ==> ops[i].now == a[i] <= last <= late;
      assert j > |a| ==> ops[j].now == b[j - |a| - 1] >= late;
      assert i > |a| ==> ops[i].now == b[i - |a| - 1];
    }
  }

  lemma OnePrune(m: Buckets, late: real, policies: Policies, pruning: bool)
    ensures Answers(m, [Prune(late)], policies, pruning) == []
    ensures After(m, [Prune(late)], policies, pruning) == Next(m, Prune(late), policies, pruning)
  {
    assert [Prune(late)][1..] == [];
  }

  lemma DifferentTails<T>(a: seq<T>, x: seq<T>, y: seq<T>)
    requires x != y
    ensures a + x != a + y
  {
    assert (a + x)[|a|..] == x && (a + y)[|a|..] == y;
  }

  lemma AnswersOfThree(head: seq<Op>, late: real, tail: seq<Op>, policies: Policies, pruning: bool)
    ensures Answers(map[], head + [Prune(late)] + tail, policies, pruning)
            == Answers(map[], head, policies, pruning)
               + Answers(Next(After(map[], head, policies, pruning), Prune(late), policies, pruning), tail, policies, pruning)
  {
    AnswersConcat(map[], head + [Prune(late)], tail, policies, pruning);
    AnswersConcat(map[], head, [Prune(late)], policies, pruning);
    AfterConcat(map[], head, [Prune(late)], policies, pruning);
    OnePrune(After(map[], head, policies, pruning), late, policies, pruning);
  }

  ghost predicate Plan(p: Policy, drain: seq<real>, late: real, left: real, probe: seq<real>) {
    && p.Limits() && drain != [] && StartsAt(drain, 0.0) && probe != [] && StartsAt(probe, late)
    && BucketAfter(Fresh(p.burst, 0.0), drain, p) == Bucket(0.0, drain[|drain| - 1])
    && late - drain[|drain| - 1] > IDLE_TTL && left == (late - drain[|drain| - 1]) * p.rate
  }

  /** Drain, wait, prune, probe: the probe meets a full bucket with the prune, and a part-full one without. */
  lemma PlanAnswers(key: string, policies: Policies, drain: seq<real>, late: real, left: real, probe: seq<real>, pruning: bool)
    requires Plan(policies(key), drain, late, left, probe)
    ensures Answers(map[], Requests(key, drain) + [Prune(late)] + Requests(key, probe), policies, pruning)
            == Answers(map[], Requests(key, drain), policies, pruning)
               + Decisions(Bucket(if pruning then policies(key).burst else left, late), probe, policies(key))
  {
    var last := drain[|drain| - 1];
    EmptiedBucket(key, drain, policies);
    AnswersOfThree(Requests(key, drain), late, Requests(key, probe), policies, pruning);
    if pruning {
      ProbeFresh(key, last, late, probe, policies);
    } else {
      ProbeKept(key, last, late, left, probe, policies);
    }
  }

  lemma PlanIsSeen(key: string, policies: Policies, drain: seq<real>, late: real, left: real, probe: seq<real>)
    returns (ops: seq<Op>)
    requires Plan(policies(key), drain, late, left, probe)
    requires Decisions(Bucket(left, late), probe, policies(key)) != Decisions(Bucket(policies(key).burst, late), probe, policies(key))
    ensures MonotoneOps(ops)
    ensures Answers(map[], ops, policies, true) != Answers(map[], ops, policies, false)
  {
    var p := policies(key);
    ops := Requests(key, drain) + [Prune(late)] + Requests(key, probe);
    RunOfThree(key, drain, late, probe);
    PlanAnswers(key, policies, drain, late, left, probe, true);
    PlanAnswers(key, policies, drain, late, left, probe, false);
    EmptiedBucket(key, drain, policies);
    DifferentTails(Answers(map[], Requests(key, drain), policies, true),
                   Decisions(Bucket(p.burst, late), probe, p), Decisions(Bucket(left, late), probe, p));
  }

  lemma MakePlan(p: Policy) returns (drain: seq<real>, late: real, left: real, probe: seq<real>)
    requires !Forgettable(p)
    ensures Plan(p, drain, late, left, probe)
    ensures Decisions(Bucket(left, late), probe, p) != Decisions(Bucket(p.burst, late), probe, p)
  {
    var full := Fresh(p.burst, 0.0);
    drain := Drain(full, p);
    late, left := PruningMoment(drain[|drain| - 1], p);
    probe := Distinguish(Bucket(left, late), Bucket(p.burst, late), p);
  }

  /** A run that drains the bucket, prunes it half-full, and then tells the difference. */
  lemma PruningIsSeen(key: string, policies: Policies) returns (ops: seq<Op>)
    requires !Forgettable(policies(key))
    ensures MonotoneOps(ops)
    ensures Answers(map[], ops, policies, true) != Answers(map[], ops, policies, false)
  {
    var drain, late, left, probe := MakePlan(policies(key));
    ops := PlanIsSeen(key, policies, drain, late, left, probe);
  }

  lemma {:induction false} AfterConcat(m: Buckets, a: seq<Op>, b: seq<Op>, policies: Policies, pruning: bool)
    ensures After(m, a + b, policies, pruning) == After(After(m, a, policies, pruning), b, policies, pruning)
    decreases |a|
  {
    if a == [] {
      assert a + b == b;
    } else {
      assert (a + b)[1..] == a[1..] + b;
      AfterConcat(Next(m, a[0], policies, pruning), a[1..], b, policies, pruning);
    }
  }

  // ----- every key on its own

  /** The times of the requests on one key. */
  function TimesOf(ops: seq<Op>, key: string): seq<real> {
    if ops == [] then []
    else
      var last := ops[|ops| - 1];
      TimesOf(ops[..|ops| - 1], key) + if last.Request? && last.key == key then [last.now] else []
  }

  function LastBucket(times: seq<real>, p: Policy): Bucket
    requires times != []
  {
    Allowed(BucketBefore(times, p.rate, p.burst, |times| - 1), times[|times| - 1], p.rate, p.burst).0
  }

  lemma {:induction false} BucketOfPrefix(times: seq<real>, more: real, p: Policy, j: nat)
    requires j < |times|
    ensures BucketBefore(times + [more], p.rate, p.burst, j) == BucketBefore(times, p.rate, p.burst, j)
  {
    if j > 0 {
      BucketOfPrefix(times, more, p, j - 1);
    }
  }

  lemma NextOfKey(times: seq<real>, now: real, p: Policy)
    ensures BucketBefore(times + [now], p.rate, p.burst, |times|)
            == if times == [] then Fresh(p.burst, now) else LastBucket(times, p)
  {
    if times != [] {
      BucketOfPrefix(times, now, p, |times| - 1);
    }
  }

  lemma {:induction false} BucketOfKey(ops: seq<Op>, key: string, policies: Policies)
    requires policies(key).Limits()
    ensures var m, times := After(map[], ops, policies, false), TimesOf(ops, key);
            (key in m <==> times != []) && (times != [] ==> m[key] == LastBucket(times, policies(key)))
  {
    if ops != [] {
      var n, p := |ops| - 1, policies(key);
      var init, last, times := ops[..n], ops[n], TimesOf(ops[..n], key);
      assert ops == init + [last] && [last][1..] == [];
      BucketOfKey(init, key, policies);
      AfterConcat(map[], init, [last], policies, false);
      var before := After(map[], init, policies, false);
      assert After(before, [last], policies, false) == Next(before, last, policies, false);
      if last.Request? && last.key == key {
        NextOfKey(times, last.now, p);
        assert (times + [last.now])[|times|] == last.now;
      } else {
        assert TimesOf(ops, key) == times + [] == times;
      }
    }
  }

  /**
   However the requests of many keys are interleaved, a request is decided by the requests on its own key alone,
   as the window theorems of `TokenBucket` describe, and always allowed under a policy without a limit.
   */
  lemma EachKeyOnItsOwn(ops: seq<Op>, key: string, now: real, policies: Policies)
    ensures var p, times := policies(key), TimesOf(ops, key) + [now];
            AfterRequest(After(map[], ops, policies, false), key, now, p).1
            == (p.rate <= 0.0 || p.burst <= 0.0 || Decision(times, p.rate, p.burst, |times| - 1))
  {
    var p, times := policies(key), TimesOf(ops, key);
    if p.Limits() {
      BucketOfKey(ops, key, policies);
      NextOfKey(times, now, p);
      assert (times + [now])[|times|] == now;
    }
  }

  /** Draining leaves one empty bucket, with or without pruning. */
  lemma EmptiedBucket(key: string, drain: seq<real>, policies: Policies)
    requires policies(key).Limits() && drain != [] && StartsAt(drain, 0.0)
    requires BucketAfter(Fresh(policies(key).burst, 0.0), drain, policies(key)) == Bucket(0.0, drain[|drain| - 1])
    ensures forall pruning: bool ::
              After(map[], Requests(key, drain), policies, pruning) == map[key := Bucket(0.0, drain[|drain| - 1])]
    ensures Answers(map[], Requests(key, drain), policies, true) == Answers(map[], Requests(key, drain), policies, false)
  {
    var p := policies(key);
    FullBucketStaysFull(drain, p);
    FreshRequests(key, drain, policies, true, map[]);
    FreshRequests(key, drain, policies, false, map[]);
  }

  lemma FullBucketStaysFull(times: seq<real>, p: Policy)
    requires p.Limits() && times != [] && StartsAt(times, 0.0)
    ensures BucketAfter(Fresh(p.burst, times[0]), times, p) == BucketAfter(Fresh(p.burst, 0.0), times, p)
  {
    TimesNonNegative(times[0], p.rate);
    assert Level(Fresh(p.burst, times[0]), times[0], p.rate, p.burst) == p.burst;
    assert Level(Fresh(p.burst, 0.0), times[0], p.rate, p.burst) == p.burst;
  }

  /** Level for level, the emptied bucket is a bucket with `left` tokens at the pruning moment. */
  lemma BroughtForward(last: real, late: real, left: real, first: real, p: Policy)
    requires p.Limits() && last < late <= first && left == (late - last) * p.rate
    ensures Level(Bucket(0.0, last), first, p.rate, p.burst) == Level(Bucket(left, late), first, p.rate, p.burst)
  {
    var before, after, whole := late - last, first - late, first - last;
    TimesAdd(before, after, p.rate);
    LevelOf(Bucket(0.0, last), first, whole, p);
    LevelOf(Bucket(left, late), first, after, p);
    assert whole == before + after;
  }

  /** The level a bucket reaches after some time. */
  lemma LevelOf(b: Bucket, now: real, elapsed: real, p: Policy)
    requires elapsed == now - b.updatedAt >= 0.0
    ensures var filled := b.tokens + elapsed * p.rate;
            Level(b, now, p.rate, p.burst) == if filled < p.burst then filled else p.burst
  {
  }

  lemma FullIsFull(late: real, first: real, p: Policy)
    requires p.Limits() && late <= first
    ensures Level(Bucket(p.burst, late), first, p.rate, p.burst) == p.burst
  {
    TimesNonNegative(first - late, p.rate);
  }

  /** After the prune the probe meets a full bucket. */
  lemma ProbeFresh(key: string, last: real, late: real, probe: seq<real>, policies: Policies)
    requires policies(key).Limits() && probe != [] && StartsAt(probe, late) && late - last > IDLE_TTL
    ensures Answers(Next(map[key := Bucket(0.0, last)], Prune(late), policies, true), Requests(key, probe), policies, true)
            == Decisions(Bucket(policies(key).burst, late), probe, policies(key))
  {
    var p, first := policies(key), probe[0];
    assert Pruned(map[key := Bucket(0.0, last)], late) == map[];
    FreshRequests(key, probe, policies, true, map[]);
    FullIsFull(late, first, p);
    FullIsFull(first, first, p);
    SameFromThere(Fresh(p.burst, first), Bucket(p.burst, late), late, probe, p);
  }

  /** Without the prune it meets what the emptied bucket has regained. */
  lemma ProbeKept(key: string, last: real, late: real, left: real, probe: seq<real>, policies: Policies)
    requires policies(key).Limits() && probe != [] && StartsAt(probe, late)
    requires last < late && left == (late - last) * policies(key).rate
    ensures Answers(Next(map[key := Bucket(0.0, last)], Prune(late), policies, false), Requests(key, probe), policies, false)
            == Decisions(Bucket(left, late), probe, policies(key))
  {
    var p := policies(key);
    RequestsUseOneBucket(map[key := Bucket(0.0, last)], key, probe, policies, false);
    BroughtForward(last, late, left, probe[0], p);
    SameFromThere(Bucket(0.0, last), Bucket(left, late), late, probe, p);
  }

  /**
   Pruning idle buckets is unobservable, in every run of requests and prunes, if and only if every
   limiting policy refills within the idle time or never allows anything.
   */
  lemma PruningUnobservableIff(policies: Policies)
    ensures Unobservable(policies) <==> forall key: string :: Forgettable(policies(key))
  {
    if forall key: string :: Forgettable(policies(key)) {
      forall ops: seq<Op> | MonotoneOps(ops)
        ensures Answers(map[], ops, policies, true) == Answers(map[], ops, policies, false)
      {
        AgreementGivesSameAnswers(map[], map[], if ops == [] then 0.0 else ops[0].now, ops, policies);
      }
    }
    if Unobservable(policies) {
      forall key: string
        ensures Forgettable(policies(key))
      {
        if !Forgettable(policies(key)) {
          var ops := PruningIsSeen(key, policies);
        }
      }
    }
  }

  /** Every per-minute bucket has burst = 60 * rate, so pruning never shows. */
  lemma PerMinuteBucketsAreForgettable(perMinute: nat)
    ensures Forgettable(Policy(perMinute as real / 60.0, perMinute as real))
  {
  }
}
