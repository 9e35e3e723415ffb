/**
 The UDP client-transaction cache: the first copy of a request is forwarded, later copies are absorbed,
 or answered with the final response that was relayed.  Both route tables are split into shards by a hash
 of the key; each entry lives for five minutes.  Times are milliseconds.
 */
module UdpTransactions {
  import opened Wrappers
  import opened Arithmetic

  const TTL: nat := 300_000
  const SHARDS: nat := 64

  type Bytes = seq<nat>

  datatype Txn = Txn(target: string, finalResponse: Option<Bytes>, createdAt: nat)

  datatype BranchRoute = BranchRoute(clientPeer: string, key: Option<string>, removeOnFinal: bool, createdAt: nat)

  type Shard = map<string, Txn>

  type Branches = map<string, BranchRoute>

  /** `cache_entries.div_ceil(64).max(1)` */
  function ShardLimit(cacheEntries: nat): (limit: nat)
    ensures limit >= 1 && limit * SHARDS >= cacheEntries
    ensures limit == 1 || (limit - 1) * SHARDS < cacheEntries
  {
    var limit := (cacheEntries + SHARDS - 1) / SHARDS;
    if limit < 1 then 1 else limit
  }

  function Unexpired(m: Shard, now: nat): Shard {
    map key | key in m && now - m[key].createdAt <= TTL :: m[key]
  }

  function UnexpiredBranches(m: Branches, now: nat): Branches {
    map branch | branch in m && now - m[branch].createdAt <= TTL :: m[branch]
  }

  /** `evicted` are as many of the oldest entries as exceed the limit, and no more. */
  ghost predicate Evicts(m: Shard, evicted: set<string>, limit: nat) {
    && evicted <= m.Keys
    && |evicted| == (if |m| > limit then |m| - limit else 0)
    && forall gone, kept | gone in evicted && kept in m && kept !in evicted :: m[gone].createdAt <= m[kept].createdAt
  }

  /** Removes oldest entries until the shard is within its limit; among equally old ones any may go first. */
  method EnforceShardLimit(m: Shard, limit: nat) returns (out: Shard, ghost evicted: set<string>)
    ensures Evicts(m, evicted, limit) && out == m - evicted && |out| <= limit
  {
    out := m;
    evicted := {};
    while |out| > limit
      invariant evicted <= m.Keys && out == m - evicted && |out| + |evicted| == |m|
      invariant |out| >= limit || |m| <= limit
      invariant |m| <= limit ==> evicted == {}
      invariant forall gone, kept | gone in evicted && kept in out :: m[gone].createdAt <= m[kept].createdAt
      decreases |out|
    {
      var oldest := Oldest(out);
      assert (out - {oldest}).Keys == out.Keys - {oldest};
      out := out - {oldest};
      evicted := evicted + {oldest};
    }
  }

  /** Some entry that no other entry is older than. */
  method Oldest(m: Shard) returns (oldest: string)
    requires m.Keys != {}
    ensures oldest in m && forall key | key in m :: m[oldest].createdAt <= m[key].createdAt
  {
    oldest :| oldest in m;
    var rest := m.Keys - {oldest};
    while rest != {}
      invariant oldest in m && rest <= m.Keys
      invariant forall key | key in m && key !in rest :: m[oldest].createdAt <= m[key].createdAt
      decreases |rest|
    {
      var key :| key in rest;
      if m[key].createdAt < m[oldest].createdAt {
        oldest := key;
      }
      rest := rest - {key};
    }
  }

  // ---------------------------------------------------------------------------------------------
  // Handling requests and responses
  // ---------------------------------------------------------------------------------------------

  datatype State = State(txns: seq<Shard>, branches: Branches)

  /** A request as `prepare_forward` left it: `key` is absent when the request has no top Via branch. */
  datatype Request = Request(
    peer: string, key: Option<string>, branch: string, target: string, prepared: bool, invite: bool, sendOk: bool)

  /** An upstream response on a branch, and the bytes it is relayed as, if its headers can be rewritten. */
  datatype Response = Response(branch: string, final: bool, relayed: Option<Bytes>)

  datatype Output =
    | Forwarded(target: string)
    | SendFailed
    | Rejected
    | Replayed(bytes: Bytes)
    | Absorbed
    | Relayed(peer: string, bytes: Bytes)
    | Dropped
    | Unrelayable

  function Entry(s: State, hash: string -> nat, key: string): Option<Txn> {
    if |s.txns| > 0 && key in s.txns[hash(key) % |s.txns|] then Some(s.txns[hash(key) % |s.txns|][key]) else None
  }

  function WithShard(s: State, hash: string -> nat, key: string, shard: Shard): State
    requires |s.txns| > 0
  {
    s.(txns := s.txns[hash(key) % |s.txns| := shard])
  }

  predicate SameShard(s: State, hash: string -> nat, a: string, b: string) {
    |s.txns| > 0 && hash(a) % |s.txns| == hash(b) % |s.txns|
  }

  function ShardOf(s: State, hash: string -> nat, key: string): Shard
    requires |s.txns| > 0
  {
    s.txns[hash(key) % |s.txns|]
  }

  /** The lookup at the start of `forward_udp`: prune the key's shard. */
  function LookedUp(s: State, hash: string -> nat, key: Option<string>, now: nat): State
    requires |s.txns| > 0
  {
    match key
    case None => s
    case Some(k) => WithShard(s, hash, k, Unexpired(ShardOf(s, hash, k), now))
  }

  /** Insert the transaction, then evict. */
  function Remembered(s: State, hash: string -> nat, r: Request, now: nat, evicted: set<string>): State
    requires |s.txns| > 0
  {
    match r.key
    case None => s
    case Some(k) => WithShard(s, hash, k, Unexpired(ShardOf(s, hash, k), now)[k := Txn(r.target, None, now)] - evicted)
  }

  /** The evictions that go with inserting the request's transaction. */
  ghost predicate EvictsFor(s: State, hash: string -> nat, r: Request, now: nat, evicted: set<string>, limit: nat)
    requires |s.txns| > 0 && r.key.Some?
  {
    Evicts(Unexpired(ShardOf(s, hash, r.key.value), now)[r.key.value := Txn(r.target, None, now)], evicted, limit)
  }

  function Forward(s: State, hash: string -> nat, r: Request, now: nat, evicted: set<string>): (State, Output)
    requires |s.txns| > 0
  {
    var s0 := LookedUp(s, hash, r.key, now);
    var hit := if r.key.Some? then Entry(s0, hash, r.key.value) else None;
    if hit.Some? then
      (s0, if hit.value.finalResponse.Some? then Replayed(hit.value.finalResponse.value) else Absorbed)
    else if !r.prepared then (s0, Rejected)
    else
      var route := BranchRoute(r.peer, r.key, !r.invite, now);
      var s1 := Remembered(s0.(branches := UnexpiredBranches(s.branches, now)[r.branch := route]), hash, r, now, evicted);
      if r.sendOk then (s1, Forwarded(r.target))
      else
        var s2 := s1.(branches := s1.branches - {r.branch});
        (if r.key.Some? then WithShard(s2, hash, r.key.value, ShardOf(s2, hash, r.key.value) - {r.key.value}) else s2,
         SendFailed)
  }

  /** Store a final response under the key, if its transaction is still there. */
  function Stored(s: State, hash: string -> nat, key: string, bytes: Bytes, now: nat): State
    requires |s.txns| > 0
  {
    var shard := Unexpired(ShardOf(s, hash, key), now);
    WithShard(s, hash, key, if key in shard then shard[key := Txn(shard[key].target, Some(bytes), now)] else shard)
  }

  function Handle(s: State, hash: string -> nat, r: Response, now: nat): (State, Output)
    requires |s.txns| > 0
  {
    var branches := UnexpiredBranches(s.branches, now);
    var s0 := s.(branches := branches);
    if r.branch !in branches then (s0, Dropped)
    else if r.relayed.None? then (s0, Unrelayable)
    else
      var route := branches[r.branch];
      var s1 := if r.final && route.key.Some? then Stored(s0, hash, route.key.value, r.relayed.value, now) else s0;
      (if r.final && route.removeOnFinal then s1.(branches := s1.branches - {r.branch}) else s1,
       Relayed(route.clientPeer, r.relayed.value))
  }

  class Transactions {
    const hash: string -> nat
    const limit: nat
    var txns: seq<Shard>
    var branches: Branches

    function View(): State
      reads this
    {
      State(txns, branches)
    }

    predicate Valid()
      reads this
    {
      |txns| == SHARDS && forall i | 0 <= i < |txns| :: |txns[i]| <= limit
    }

    constructor (hash: string -> nat, cacheEntries: nat)
      ensures Valid() && limit == ShardLimit(cacheEntries) && this.hash == hash
      ensures forall i | 0 <= i < |txns| :: txns[i] == map[]
      ensures branches == map[]
    {
      this.hash := hash;
      limit := ShardLimit(cacheEntries);
      txns := seq(SHARDS, _ => map[]);
      branches := map[];
    }

    method LookupClientTransaction(key: string, now: nat) returns (txn: Option<Txn>)
      requires Valid()
      modifies this`txns
      ensures Valid()
      ensures View() == LookedUp(old(View()), hash, Some(key), now) && txn == Entry(View(), hash, key)
    {
      var i := hash(key) % |txns|;
      UnexpiredIsSmaller(txns[i], now);
      txns := txns[i := Unexpired(txns[i], now)];
      return if key in txns[i] then Some(txns[i][key]) else None;
    }

    method RememberClientTransaction(key: string, target: string, now: nat) returns (ghost evicted: set<string>)
      requires Valid()
      modifies this`txns
      ensures Valid()
      ensures var full := Unexpired(ShardOf(old(View()), hash, key), now)[key := Txn(target, None, now)];
              Evicts(full, evicted, limit) && View() == WithShard(old(View()), hash, key, full - evicted)
    {
      var i := hash(key) % |txns|;
      var kept;
      kept, evicted := EnforceShardLimit(Unexpired(txns[i], now)[key := Txn(target, None, now)], limit);
      txns := txns[i := kept];
    }

    method RemoveClientTransaction(key: string)
      requires Valid()
      modifies this`txns
      ensures Valid()
      ensures View() == WithShard(old(View()), hash, key, ShardOf(old(View()), hash, key) - {key})
    {
      var i := hash(key) % |txns|;
      RemovalIsSmaller(txns[i], key);
      txns := txns[i := txns[i] - {key}];
    }

    method ForwardUdp(r: Request, now: nat) returns (out: Output, ghost evicted: set<string>)
      requires Valid()
      modifies this
      ensures Valid()
      ensures (View(), out) == Forward(old(View()), hash, r, now, evicted)
      ensures (out.Forwarded? || out.SendFailed?) && r.key.Some? ==>
                EvictsFor(LookedUp(old(View()), hash, r.key, now), hash, r, now, evicted, limit)
    {
      evicted := {};
      if r.key.Some? {
        var hit := LookupClientTransaction(r.key.value, now);
        if hit.Some? {
          return if hit.value.finalResponse.Some? then Replayed(hit.value.finalResponse.value) else Absorbed, {};
        }
      }
      if !r.prepared {
        return Rejected, {};
      }
      branches := UnexpiredBranches(branches, now)[r.branch := BranchRoute(r.peer, r.key, !r.invite, now)];
      if r.key.Some? {
        evicted := RememberClientTransaction(r.key.value, r.target, now);
      }
      if r.sendOk {
        return Forwarded(r.target), evicted;
      }
      branches := branches - {r.branch};
      if r.key.Some? {
        RemoveClientTransaction(r.key.value);
      }
      return SendFailed, evicted;
    }

    method HandleUdpResponse(r: Response, now: nat) returns (out: Output)
      requires Valid()
      modifies this
      ensures Valid()
      ensures (View(), out) == Handle(old(View()), hash, r, now)
    {
      branches := UnexpiredBranches(branches, now);
      if r.branch !in branches {
        return Dropped;
      }
      if r.relayed.None? {
        return Unrelayable;
      }
      var relayed := r.relayed.value;
      var route := branches[r.branch];
      if r.final && route.key.Some? {
        var k := route.key.value;
        var i := hash(k) % |txns|;
        UnexpiredIsSmaller(txns[i], now);
        var shard := Unexpired(txns[i], now);
        if k in shard {
          UpdateIsNoLarger(shard, k, Txn(shard[k].target, Some(relayed), now));
          shard := shard[k := Txn(shard[k].target, Some(relayed), now)];
        }
        txns := txns[i := shard];
      }
      if r.final && route.removeOnFinal {
        branches := branches - {r.branch};
      }
      return Relayed(route.clientPeer, relayed);
    }
  }

  lemma UnexpiredIsSmaller(m: Shard, now: nat)
    ensures |Unexpired(m, now)| <= |m|
  {
    SubsetSize(Unexpired(m, now).Keys, m.Keys);
  }

  lemma RemovalIsSmaller(m: Shard, key: string)
    ensures |m - {key}| <= |m|
  {
    SubsetSize((m - {key}).Keys, m.Keys);
  }

  lemma UpdateIsNoLarger(m: Shard, key: string, t: Txn)
    requires key in m
    ensures |m[key := t]| == |m|
  {
    assert m[key := t].Keys == m.Keys;
  }

  lemma UnexpiredTwice(m: Shard, now: nat)
    ensures Unexpired(Unexpired(m, now), now) == Unexpired(m, now)
  {
  }

  // ---------------------------------------------------------------------------------------------
  // Runs
  // ---------------------------------------------------------------------------------------------

  datatype Step = Send(request: Request, evicted: set<string>) | Receive(response: Response)

  /** A sequential run from empty tables with a monotone clock; `states[i]` is the state before step `i`, taken at `times[i]`. */
  datatype Run = Run(hash: string -> nat, limit: nat, states: seq<State>, steps: seq<Step>, times: seq<nat>, outputs: seq<Output>)

  ghost predicate ValidStep(run: Run, i: nat)
    requires i < |run.steps| && |run.states| == |run.steps| + 1 && |run.times| == |run.outputs| == |run.steps|
  {
    var s, now := run.states[i], run.times[i];
    && |s.txns| > 0
    && match run.steps[i]
       case Send(r, evicted) =>
         && (run.states[i + 1], run.outputs[i]) == Forward(s, run.hash, r, now, evicted)
         && (r.key.Some? && Entry(LookedUp(s, run.hash, r.key, now), run.hash, r.key.value).None? ==>
               EvictsFor(LookedUp(s, run.hash, r.key, now), run.hash, r, now, evicted, run.limit))
       case Receive(r) => (run.states[i + 1], run.outputs[i]) == Handle(s, run.hash, r, now)
  }

  ghost predicate ValidRun(run: Run) {
    && |run.states| == |run.steps| + 1 && |run.times| == |run.outputs| == |run.steps|
    && |run.states[0].txns| > 0 && run.states[0].branches == map[]
    && (forall i | 0 <= i < |run.states[0].txns| :: run.states[0].txns[i] == map[])
    && (forall i, j | 0 <= i < j < |run.times| :: run.times[i] <= run.times[j])
    && forall i | 0 <= i < |run.steps| :: ValidStep(run, i)
  }

  /** The key's entry is there before step `i` and not expired at its time. */
  predicate AliveAt(run: Run, i: nat, key: string)
    requires i < |run.states| && |run.times| + 1 == |run.states|
  {
    var e := Entry(run.states[i], run.hash, key);
    e.Some? && (i < |run.times| ==> run.times[i] - e.value.createdAt <= TTL)
  }

  predicate SendsKey(run: Run, i: nat, key: string)
    requires i < |run.steps|
  {
    run.steps[i].Send? && run.steps[i].request.key == Some(key)
  }

  // ----- which request a branch belongs to, from the steps alone

  /** Step `m` puts a row for the branch into the table, whether or not it stays there. */
  predicate SendsOn(run: Run, m: nat, branch: string)
    requires m < |run.steps| == |run.outputs|
  {
    && run.steps[m].Send? && run.steps[m].request.branch == branch
    && (run.outputs[m].Forwarded? || run.outputs[m].SendFailed?)
  }

  /** Step `m` is a final response on the branch that is relayed. */
  predicate FinalOn(run: Run, m: nat, branch: string)
    requires m < |run.steps|
  {
    && run.steps[m].Receive? && run.steps[m].response.branch == branch
    && run.steps[m].response.final && run.steps[m].response.relayed.Some?
  }

  /**
   Request `j` was forwarded on the branch; before step `i` no other request was sent on it, and unless it is an
   INVITE no final response has been relayed on it.
   */
  ghost predicate Owns(run: Run, j: nat, i: nat, branch: string)
    requires i <= |run.steps| == |run.outputs|
  {
    && j < i && SendsOn(run, j, branch) && run.outputs[j].Forwarded?
    && forall m | j < m < i :: !SendsOn(run, m, branch) && (FinalOn(run, m, branch) ==> run.steps[j].request.invite)
  }

  /** The branch still belongs to request `j` when step `i` is taken: it has not expired. */
  ghost predicate OpenedBy(run: Run, j: nat, i: nat, branch: string)
    requires i < |run.steps| == |run.outputs| == |run.times|
  {
    Owns(run, j, i, branch) && run.times[i] - run.times[j] <= TTL
  }

  function RouteOf(run: Run, j: nat): BranchRoute
    requires j < |run.steps| == |run.times| && run.steps[j].Send?
  {
    var r := run.steps[j].request;
    BranchRoute(r.peer, r.key, !r.invite, run.times[j])
  }

  /** Step `i` relays a final response on a branch of a request with that key. */
  ghost predicate RelaysFinal(run: Run, i: nat, key: string)
    requires i < |run.steps| == |run.outputs| == |run.times|
  {
    && run.steps[i].Receive? && FinalOn(run, i, run.steps[i].response.branch)
    && exists j: nat :: OpenedBy(run, j, i, run.steps[i].response.branch) && SendsKey(run, j, key)
  }

  /** The bytes of the last final response relayed for the key in steps `first + 1 .. last`. */
  ghost function LatestFinal(run: Run, key: string, first: nat, last: nat): Option<Bytes>
    requires first < last <= |run.steps| == |run.outputs| == |run.times|
  {
    if last == first + 1 then None
    else if RelaysFinal(run, last - 1, key) then run.steps[last - 1].response.relayed
    else LatestFinal(run, key, first, last - 1)
  }

  /** Step `first` inserted the key's entry, and it stays alive until step `last`. */
  ghost predicate Lifetime(run: Run, key: string, first: nat, last: nat)
    requires ValidRun(run)
  {
    && first < last <= |run.steps|
    && SendsKey(run, first, key) && run.outputs[first].Forwarded?
    && forall i: nat | first < i <= last :: AliveAt(run, i, key)
  }

  // ----- the branch table holds exactly the open branches

  lemma BranchStays(run: Run, i: nat, branch: string)
    requires ValidRun(run) && i < |run.steps| && !SendsOn(run, i, branch)
    requires branch in run.states[i].branches && run.times[i] - run.states[i].branches[branch].createdAt <= TTL
    requires FinalOn(run, i, branch) ==> !run.states[i].branches[branch].removeOnFinal
    ensures branch in run.states[i + 1].branches && run.states[i + 1].branches[branch] == run.states[i].branches[branch]
  {
    assert ValidStep(run, i);
  }

  lemma NoNewBranch(run: Run, i: nat, branch: string)
    requires ValidRun(run) && i < |run.steps| && !SendsOn(run, i, branch) && branch in run.states[i + 1].branches
    ensures branch in run.states[i].branches && run.states[i + 1].branches[branch] == run.states[i].branches[branch]
    ensures FinalOn(run, i, branch) ==> !run.states[i].branches[branch].removeOnFinal
  {
    assert ValidStep(run, i);
  }

  lemma BranchOpened(run: Run, j: nat, branch: string)
    requires ValidRun(run) && j < |run.steps| && SendsOn(run, j, branch)
    ensures var after := run.states[j + 1].branches;
            if run.outputs[j].Forwarded? then branch in after && after[branch] == RouteOf(run, j) else branch !in after
  {
    assert ValidStep(run, j);
  }

  /** A branch that belongs to a request and has not expired is in the table, with that request's route. */
  lemma {:induction false} OwnedIsThere(run: Run, j: nat, i: nat, branch: string)
    requires ValidRun(run) && i <= |run.steps| && Owns(run, j, i, branch) && run.times[i - 1] - run.times[j] <= TTL
    ensures branch in run.states[i].branches && run.states[i].branches[branch] == RouteOf(run, j)
    decreases i
  {
    BranchOpened(run, j, branch);
    if j + 1 < i {
      assert run.times[i - 2] <= run.times[i - 1];
      OwnedIsThere(run, j, i - 1, branch);
      BranchStays(run, i - 1, branch);
    }
  }

  /** Whatever branch is in the table belongs to a request that was forwarded on it. */
  lemma {:induction false} ThereIsOwned(run: Run, i: nat, branch: string) returns (j: nat)
    requires ValidRun(run) && i <= |run.steps| && branch in run.states[i].branches
    ensures Owns(run, j, i, branch) && run.states[i].branches[branch] == RouteOf(run, j)
    decreases i
  {
    var last := i - 1;
    if SendsOn(run, last, branch) {
      BranchOpened(run, last, branch);
      j := last;
    } else {
      NoNewBranch(run, last, branch);
      j := ThereIsOwned(run, last, branch);
    }
  }

  /**
   A response belongs to a request if and only if its branch is in the table; the route there is that request's
   client and key, and it is removed by a final response unless the request is an INVITE.
   */
  lemma BranchIsOpenIff(run: Run, i: nat, branch: string)
    requires ValidRun(run) && i < |run.steps|
    ensures var open := UnexpiredBranches(run.states[i].branches, run.times[i]);
            && (branch in open <==> exists j: nat :: OpenedBy(run, j, i, branch))
            && forall j: nat | OpenedBy(run, j, i, branch) :: branch in open && open[branch] == RouteOf(run, j)
  {
    var open := UnexpiredBranches(run.states[i].branches, run.times[i]);
    forall j: nat | OpenedBy(run, j, i, branch)
      ensures branch in open && open[branch] == RouteOf(run, j)
    {
      assert run.times[i - 1] <= run.times[i];
      OwnedIsThere(run, j, i, branch);
    }
    if branch in open {
      var j := ThereIsOwned(run, i, branch);
      assert OpenedBy(run, j, i, branch);
    }
  }

  /**
   Every response on an open branch that can be rewritten is relayed to the client whose request was forwarded on
   it, and no other is; a branch outlives its final response exactly for an INVITE.
   */
  lemma RelayedToRequester(run: Run, i: nat)
    requires ValidRun(run) && i < |run.steps| && run.steps[i].Receive?
    ensures var r := run.steps[i].response;
            && (forall j: nat | OpenedBy(run, j, i, r.branch) ::
                  && run.outputs[i] == (if r.relayed.None? then Unrelayable else Relayed(run.steps[j].request.peer, r.relayed.value))
                  && (r.branch in run.states[i + 1].branches <==> FinalOn(run, i, r.branch) ==> run.steps[j].request.invite))
            && ((forall j: nat :: !OpenedBy(run, j, i, r.branch)) ==> run.outputs[i] == Dropped)
  {
    BranchIsOpenIff(run, i, run.steps[i].response.branch);
    assert ValidStep(run, i);
  }

  lemma RelaysFinalIff(run: Run, i: nat, key: string)
    requires ValidRun(run) && i < |run.steps|
    ensures RelaysFinal(run, i, key) <==>
              && run.steps[i].Receive? && FinalOn(run, i, run.steps[i].response.branch)
              && var open := UnexpiredBranches(run.states[i].branches, run.times[i]);
                 run.steps[i].response.branch in open && open[run.steps[i].response.branch].key == Some(key)
  {
    if run.steps[i].Receive? {
      BranchIsOpenIff(run, i, run.steps[i].response.branch);
    }
  }

  // ----- the transaction cache

  /** Whether a request is forwarded is decided by whether its key is alive; otherwise by preparation and sending. */
  lemma HitIffAlive(run: Run, i: nat, key: string)
    requires ValidRun(run) && i < |run.steps| && SendsKey(run, i, key)
    ensures AliveAt(run, i, key) <==> run.outputs[i].Replayed? || run.outputs[i].Absorbed?
    ensures AliveAt(run, i, key) ==>
              run.outputs[i] == match Entry(run.states[i], run.hash, key).value.finalResponse
                                case Some(bytes) => Replayed(bytes)
                                case None => Absorbed
    ensures !AliveAt(run, i, key) ==>
              var r := run.steps[i].request;
              run.outputs[i] == if !r.prepared then Rejected else if r.sendOk then Forwarded(r.target) else SendFailed
  {
    assert ValidStep(run, i);
  }

  /**
   A forwarded request's entry is there afterwards, fresh, unless its shard is full of entries of the same moment;
   a request that could not be sent leaves none.
   */
  lemma InsertedFresh(run: Run, i: nat, key: string)
    requires ValidRun(run) && i < |run.steps| && SendsKey(run, i, key)
    ensures run.outputs[i].Forwarded? && key !in run.steps[i].evicted ==>
              Entry(run.states[i + 1], run.hash, key) == Some(Txn(run.steps[i].request.target, None, run.times[i]))
    ensures run.outputs[i].Forwarded? && key in run.steps[i].evicted ==>
              forall other | Entry(run.states[i + 1], run.hash, other).Some? && SameShard(run.states[i], run.hash, other, key) ::
                Entry(run.states[i + 1], run.hash, other).value.createdAt >= run.times[i]
    ensures run.outputs[i].SendFailed? ==> Entry(run.states[i + 1], run.hash, key) == None
  {
    assert ValidStep(run, i);
  }

  lemma AppearsInForward(s: State, hash: string -> nat, r: Request, now: nat, evicted: set<string>, key: string)
    requires |s.txns| > 0 && Entry(s, hash, key) == None
    requires Entry(Forward(s, hash, r, now, evicted).0, hash, key).Some?
    ensures r.key == Some(key) && Forward(s, hash, r, now, evicted).1.Forwarded?
  {
    var s0 := LookedUp(s, hash, r.key, now);
    assert Entry(s0, hash, key) == None;
  }

  lemma EntryAppears(run: Run, i: nat, key: string)
    requires ValidRun(run) && i < |run.steps|
    requires Entry(run.states[i], run.hash, key) == None && Entry(run.states[i + 1], run.hash, key).Some?
    ensures SendsKey(run, i, key) && run.outputs[i].Forwarded?
  {
    assert ValidStep(run, i);
    match run.steps[i]
    case Send(r, evicted) => AppearsInForward(run.states[i], run.hash, r, run.times[i], evicted, key);
    case Receive(_) =>
  }

  /** An entry that is there was inserted by a request that was forwarded, and has been there since. */
  lemma {:induction false} EntryWasInserted(run: Run, i: nat, key: string) returns (first: nat)
    requires ValidRun(run) && i < |run.states| && Entry(run.states[i], run.hash, key).Some?
    ensures first < i && SendsKey(run, first, key) && run.outputs[first].Forwarded?
    ensures forall m: nat | first < m <= i :: Entry(run.states[m], run.hash, key).Some?
  {
    if Entry(run.states[i - 1], run.hash, key).Some? {
      first := EntryWasInserted(run, i - 1, key);
    } else {
      EntryAppears(run, i - 1, key);
      first := i - 1;
    }
  }

  lemma LostInForward(s: State, hash: string -> nat, r: Request, now: nat, evicted: set<string>, key: string)
    requires |s.txns| > 0 && Entry(s, hash, key).Some? && now - Entry(s, hash, key).value.createdAt <= TTL
    requires Entry(Forward(s, hash, r, now, evicted).0, hash, key) == None
    ensures r.key.Some? && r.key != Some(key) && SameShard(s, hash, key, r.key.value) && key in evicted
    ensures Forward(s, hash, r, now, evicted).1.Forwarded? || Forward(s, hash, r, now, evicted).1.SendFailed?
  {
    var s0 := LookedUp(s, hash, r.key, now);
    assert Entry(s0, hash, key) == Entry(s, hash, key);
  }

  /** An unexpired entry is lost only to the insertion of another key into its shard, when it is evicted. */
  lemma LostOnlyByEviction(run: Run, i: nat, key: string)
    requires ValidRun(run) && i < |run.steps| && AliveAt(run, i, key)
    requires Entry(run.states[i + 1], run.hash, key) == None
    ensures run.steps[i].Send? && key in run.steps[i].evicted
    ensures run.outputs[i].Forwarded? || run.outputs[i].SendFailed?
    ensures var r := run.steps[i].request;
            r.key.Some? && r.key != Some(key) && SameShard(run.states[i], run.hash, key, r.key.value)
  {
    assert ValidStep(run, i);
    match run.steps[i]
    case Send(r, evicted) => LostInForward(run.states[i], run.hash, r, run.times[i], evicted, key);
    case Receive(_) =>
  }

  lemma ForwardKeepsSurvivor(s: State, hash: string -> nat, r: Request, now: nat, evicted: set<string>, key: string)
    requires |s.txns| > 0 && Entry(s, hash, key).Some? && now - Entry(s, hash, key).value.createdAt <= TTL
    requires Entry(Forward(s, hash, r, now, evicted).0, hash, key).Some?
    ensures Entry(Forward(s, hash, r, now, evicted).0, hash, key) == Entry(s, hash, key)
  {
    var s0 := LookedUp(s, hash, r.key, now);
    assert Entry(s0, hash, key) == Entry(s, hash, key);
  }

  /** Other keys' steps leave a surviving entry as it is. */
  lemma SurvivorUnchanged(run: Run, i: nat, key: string)
    requires ValidRun(run) && i < |run.steps| && AliveAt(run, i, key)
    requires Entry(run.states[i + 1], run.hash, key).Some?
    requires !RelaysFinal(run, i, key)
    ensures Entry(run.states[i + 1], run.hash, key) == Entry(run.states[i], run.hash, key)
  {
    assert ValidStep(run, i);
    RelaysFinalIff(run, i, key);
    match run.steps[i]
    case Send(r, evicted) => ForwardKeepsSurvivor(run.states[i], run.hash, r, run.times[i], evicted, key);
    case Receive(_) =>
  }

  lemma FinalIsStored(run: Run, i: nat, key: string)
    requires ValidRun(run) && i < |run.steps| && AliveAt(run, i, key) && RelaysFinal(run, i, key)
    ensures run.outputs[i].Relayed? && Some(run.outputs[i].bytes) == run.steps[i].response.relayed
    ensures var e := Entry(run.states[i + 1], run.hash, key);
            && e.Some? && e.value.finalResponse == run.steps[i].response.relayed && e.value.createdAt == run.times[i]
            && e.value.target == Entry(run.states[i], run.hash, key).value.target
  {
    RelaysFinalIff(run, i, key);
    assert ValidStep(run, i);
  }

  /** The time of the last final response relayed for the key since step `first`, or of that step. */
  ghost function LastTouched(run: Run, key: string, first: nat, last: nat): nat
    requires first < last <= |run.steps| == |run.outputs| == |run.times|
  {
    if last == first + 1 then run.times[first]
    else if RelaysFinal(run, last - 1, key) then run.times[last - 1]
    else LastTouched(run, key, first, last - 1)
  }

  /**
   During its lifetime the entry holds exactly the latest final response relayed for its key, its age counts from
   then, and its target stays.
   */
  lemma {:induction false} EntryHoldsLatestFinal(run: Run, key: string, first: nat, last: nat)
    requires ValidRun(run) && Lifetime(run, key, first, last)
    ensures var e := Entry(run.states[last], run.hash, key);
            && e.Some? && e.value.finalResponse == LatestFinal(run, key, first, last)
            && e.value.createdAt == LastTouched(run, key, first, last)
            && e.value.target == run.steps[first].request.target
    decreases last
  {
    assert AliveAt(run, last, key);
    if last == first + 1 {
      assert ValidStep(run, first);
    } else {
      EntryHoldsLatestFinal(run, key, first, last - 1);
      assert AliveAt(run, last - 1, key);
      if RelaysFinal(run, last - 1, key) {
        FinalIsStored(run, last - 1, key);
      } else {
        SurvivorUnchanged(run, last - 1, key);
      }
    }
  }

  /**
   Absorption: from the insertion of an entry until it expires, is evicted or is removed, every further
   copy of the request is answered with the latest final response relayed for it, byte for byte, or
   absorbed while there is none; none is forwarded.
   */
  lemma RetransmissionIsAbsorbed(run: Run, key: string, first: nat, i: nat)
    requires ValidRun(run) && first < i < |run.steps| && Lifetime(run, key, first, i) && SendsKey(run, i, key)
    ensures run.outputs[i] == match LatestFinal(run, key, first, i)
                              case Some(bytes) => Replayed(bytes)
                              case None => Absorbed
  {
    EntryHoldsLatestFinal(run, key, first, i);
    assert AliveAt(run, i, key);
    HitIffAlive(run, i, key);
  }

  /** How many upstream sends the key causes in steps `first .. last` (without `last`). */
  function Sends(run: Run, key: string, first: nat, last: nat): nat
    requires first <= last <= |run.steps| && |run.outputs| == |run.steps|
  {
    if first == last then 0
    else Sends(run, key, first, last - 1) + if SendsKey(run, last - 1, key) && run.outputs[last - 1].Forwarded? then 1 else 0
  }

  /** In its lifetime an entry's key causes exactly one upstream send: the one that inserted it. */
  lemma {:induction false} ExactlyOneSend(run: Run, key: string, first: nat, last: nat)
    requires ValidRun(run) && Lifetime(run, key, first, last)
    ensures Sends(run, key, first, last) == 1
    decreases last
  {
    if last == first + 1 {
      assert Sends(run, key, first, first) == 0;
    } else {
      ExactlyOneSend(run, key, first, last - 1);
      assert AliveAt(run, last - 1, key);
      if SendsKey(run, last - 1, key) {
        HitIffAlive(run, last - 1, key);
      }
    }
  }

  /** Every shard stays within its limit in every state, in particular after each insertion. */
  predicate WithinLimit(s: State, limit: nat) {
    forall i | 0 <= i < |s.txns| :: |s.txns[i]| <= limit
  }

  lemma ForwardKeepsLimit(s: State, hash: string -> nat, r: Request, now: nat, evicted: set<string>, limit: nat)
    requires |s.txns| > 0 && WithinLimit(s, limit)
    requires r.key.Some? && Entry(LookedUp(s, hash, r.key, now), hash, r.key.value).None? ==>
               EvictsFor(LookedUp(s, hash, r.key, now), hash, r, now, evicted, limit)
    ensures WithinLimit(Forward(s, hash, r, now, evicted).0, limit)
  {
    if r.key.Some? {
      var k := r.key.value;
      var shard := ShardOf(s, hash, k);
      UnexpiredIsSmaller(shard, now);
      UnexpiredTwice(shard, now);
      var s0 := LookedUp(s, hash, r.key, now);
      if Entry(s0, hash, k).None? && r.prepared {
        var full := Unexpired(shard, now)[k := Txn(r.target, None, now)];
        EvictionSize(full, evicted, limit);
        RemovalIsSmaller(full - evicted, k);
      }
    }
  }

  lemma EvictionSize(m: Shard, evicted: set<string>, limit: nat)
    requires Evicts(m, evicted, limit)
    ensures |m - evicted| <= limit
  {
    assert (m - evicted).Keys == m.Keys - evicted;
    assert m.Keys == (m.Keys - evicted) + evicted;
  }

  lemma HandleKeepsLimit(s: State, hash: string -> nat, r: Response, now: nat, limit: nat)
    requires |s.txns| > 0 && WithinLimit(s, limit)
    ensures WithinLimit(Handle(s, hash, r, now).0, limit)
  {
    var branches := UnexpiredBranches(s.branches, now);
    if r.branch in branches && r.relayed.Some? && r.final && branches[r.branch].key.Some? {
      var k := branches[r.branch].key.value;
      var shard := ShardOf(s, hash, k);
      UnexpiredIsSmaller(shard, now);
      if k in Unexpired(shard, now) {
        UpdateIsNoLarger(Unexpired(shard, now), k, Txn(shard[k].target, r.relayed, now));
      }
    }
  }

  lemma {:induction false} ShardsStayWithinLimit(run: Run, i: nat)
    requires ValidRun(run) && i < |run.states|
    ensures WithinLimit(run.states[i], run.limit)
  {
    if i > 0 {
      ShardsStayWithinLimit(run, i - 1);
      assert ValidStep(run, i - 1);
      match run.steps[i - 1]
      case Send(r, evicted) => ForwardKeepsLimit(run.states[i - 1], run.hash, r, run.times[i - 1], evicted, run.limit);
      case Receive(r) => HandleKeepsLimit(run.states[i - 1], run.hash, r, run.times[i - 1], run.limit);
    }
  }

  /** An entry that expires or is displaced is never newer than one that stays in its place. */
  lemma OnlyOldestAreEvicted(run: Run, i: nat, gone: string, kept: string)
    requires ValidRun(run) && i < |run.steps| && run.steps[i].Send? && run.outputs[i].Forwarded?
    requires AliveAt(run, i, gone) && Entry(run.states[i + 1], run.hash, gone).None?
    requires run.steps[i].request.key.Some? && kept != run.steps[i].request.key.value
    requires Entry(run.states[i + 1], run.hash, kept).Some?
    requires |run.states[i].txns| > 0
             && run.hash(gone) % |run.states[i].txns| == run.hash(kept) % |run.states[i].txns|
    ensures Entry(run.states[i], run.hash, gone).value.createdAt <= Entry(run.states[i + 1], run.hash, kept).value.createdAt
  {
    assert ValidStep(run, i);
  }
}
