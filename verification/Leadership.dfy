/**
 Active-standby leadership between two nodes.

 A node keeps a role and an epoch, serves them to its peer as heartbeats, demotes itself when it
 hears of a better-ranked active peer, and promotes itself when it hears of a second standby or
 hears nothing for long enough.  The first half of the module is that node; the second half is the
 pair of nodes as a transition system, and what holds in every run of it.
 */
module Leadership {
  import opened Wrappers

  datatype ClusterRole = Leader | Follower | Candidate | Standalone {
    predicate AcceptsWrites() {
      Leader? || Standalone?
    }
  }

  /** What a node says about itself; also the complete state of a node. */
  datatype Heartbeat = Heartbeat(nodeId: nat, role: ClusterRole, epoch: nat) {
    predicate Active() {
      role.AcceptsWrites()
    }
  }

  /** Higher epoch wins, then lower node id. */
  predicate PeerShouldWin(local: Heartbeat, peer: Heartbeat) {
    peer.epoch > local.epoch || (peer.epoch == local.epoch && peer.nodeId < local.nodeId)
  }

  function Promoted(node: Heartbeat): Heartbeat {
    if node.Active() then node else node.(role := Leader, epoch := node.epoch + 1)
  }

  function Demoted(node: Heartbeat): Heartbeat {
    node.(role := Follower)
  }

  /** The node after it has handled its peer's heartbeat; a failing hook leaves it as it was. */
  function Reconciled(local: Heartbeat, peer: Heartbeat, hookOk: bool): Heartbeat {
    if !hookOk then local
    else if local.Active() && peer.Active() && PeerShouldWin(local, peer) then Demoted(local)
    else if !local.Active() && !peer.Active() && local.nodeId < peer.nodeId then Promoted(local)
    else local
  }

  /** Handling the peer's heartbeat calls for a change, and the hook that must come first fails. */
  predicate Refused(local: Heartbeat, peer: Heartbeat, hookOk: bool) {
    !hookOk && Reconciled(local, peer, true) != local
  }

  /**
   A tick of the monitor: the node handles its peer's reply if there is one; unless that ended the monitor, a
   standby that has waited out the timeout then takes over if its hook allows.
   */
  predicate Ticked(before: Heartbeat, after: Heartbeat, reply: Option<Heartbeat>, hookOk: bool,
                   waited: nat, timeout: nat, takeoverHookOk: bool)
  {
    var refused := reply.Some? && Refused(before, reply.value, hookOk);
    var heard := if reply.Some? then Reconciled(before, reply.value, hookOk) else before;
    after == if !refused && waited >= timeout && takeoverHookOk then Promoted(heard) else heard
  }

  class ActiveStandbyRuntime {
    const nodeId: nat
    const failoverTimeout: nat
    var role: ClusterRole
    var epoch: nat
    var lastSeen: nat

    function View(): Heartbeat
      reads this
    {
      Heartbeat(nodeId, role, epoch)
    }

    constructor (nodeId: nat, active: bool, failoverTimeout: nat, now: nat)
      ensures View() == Heartbeat(nodeId, if active then Leader else Follower, 1)
      ensures lastSeen == now && this.failoverTimeout == failoverTimeout
    {
      this.nodeId := nodeId;
      this.failoverTimeout := failoverTimeout;
      role := if active then Leader else Follower;
      epoch := 1;
      lastSeen := now;
    }

    method Promote()
      modifies this`role, this`epoch
      ensures View() == Promoted(old(View()))
      ensures if old(View()).Active() then View() == old(View()) else role == Leader && epoch == old(epoch) + 1
    {
      if !role.AcceptsWrites() {
        epoch := epoch + 1;
        role := Leader;
      }
    }

    method Demote()
      modifies this`role
      ensures View() == Demoted(old(View()))
      ensures role == Follower
    {
      role := Follower;
    }

    /** Returns false when a required hook failed, which ends the monitor. */
    method Reconcile(peer: Heartbeat, hookOk: bool) returns (ok: bool)
      modifies this`role, this`epoch
      ensures View() == Reconciled(old(View()), peer, hookOk)
      ensures ok <==> !Refused(old(View()), peer, hookOk)
      ensures var beaten := peer.epoch > old(epoch) || (peer.epoch == old(epoch) && peer.nodeId < nodeId);
              var stepsDown := old(View()).Active() && peer.Active() && beaten;
              var stepsUp := !old(View()).Active() && !peer.Active() && nodeId < peer.nodeId;
              && (ok <==> hookOk || (!stepsDown && !stepsUp))
              && (stepsDown && ok ==> role == Follower && epoch == old(epoch))
              && (stepsUp && ok ==> role == Leader && epoch == old(epoch) + 1)
              && (!ok || (!stepsDown && !stepsUp) ==> View() == old(View()))
    {
      var local := View();
      ok := true;
      if local.Active() && peer.Active() {
        if PeerShouldWin(local, peer) {
          if hookOk { Demote(); } else { ok := false; }
        }
      } else if !local.Active() && !peer.Active() {
        if local.nodeId < peer.nodeId {
          if hookOk { Promote(); } else { ok := false; }
        }
      }
    }

    /**
     One tick of the monitor: handle the peer's reply if there is one, then promote a standby that
     has not seen its peer for the failover timeout.  `later` is the clock at that second check.
     */
    method MonitorTick(reply: Option<Heartbeat>, now: nat, later: nat, hookOk: bool, takeoverHookOk: bool)
      returns (ok: bool)
      requires lastSeen <= now <= later
      modifies this
      ensures lastSeen == if reply.Some? then now else old(lastSeen)
      ensures Ticked(old(View()), View(), reply, hookOk, later - lastSeen, failoverTimeout, takeoverHookOk)
      ensures var refused := reply.Some? && Refused(old(View()), reply.value, hookOk);
              var heard := if reply.Some? then Reconciled(old(View()), reply.value, hookOk) else old(View());
              var silent := !refused && !heard.Active() && later - lastSeen >= failoverTimeout;
              && (silent && takeoverHookOk ==> ok && role == Leader && epoch == heard.epoch + 1)
              && (silent && !takeoverHookOk ==> !ok && View() == heard)
              && (!silent ==> View() == heard && (ok <==> !refused))
    {
      ok := true;
      if reply.Some? {
        lastSeen := now;
        ok := Reconcile(reply.value, hookOk);
        if !ok {
          return;
        }
      }
      if !role.AcceptsWrites() && later - lastSeen >= failoverTimeout {
        if takeoverHookOk { Promote(); } else { ok := false; }
      }
    }
  }

  // ---------------------------------------------------------------------------------------------
  // The pair of nodes
  // ---------------------------------------------------------------------------------------------

  datatype Site = North | South {
    function Peer(): Site {
      if North? then South else North
    }
  }

  datatype Pair = Pair(north: Heartbeat, south: Heartbeat) {
    function At(site: Site): Heartbeat {
      if site.North? then north else south
    }

    function Put(site: Site, node: Heartbeat): Pair {
      if site.North? then Pair(node, south) else Pair(north, node)
    }
  }

  /**
   `Handle(site, roleAt, epochAt, _)`: the node at `site` handles a heartbeat whose role its peer read
   in the run's state `roleAt` and whose epoch it read in state `epochAt`.  Naming earlier states makes
   every delay, loss, duplication and reordering a run of this system, and also a heartbeat torn
   between its two reads.  `TimeOut` is the takeover after a silent peer, at any moment.
   */
  datatype Step =
    | Handle(site: Site, roleAt: nat, epochAt: nat, hookOk: bool)
    | TimeOut(site: Site, hookOk: bool)

  datatype Run = Run(states: seq<Pair>, steps: seq<Step>)

  predicate Initial(pair: Pair) {
    && pair.north.nodeId != pair.south.nodeId
    && forall site: Site ::
         pair.At(site).epoch == 1 && (pair.At(site).role == Leader || pair.At(site).role == Follower)
  }

  function Delivered(states: seq<Pair>, from: Site, roleAt: nat, epochAt: nat): Heartbeat
    requires roleAt <= epochAt < |states|
  {
    Heartbeat(states[roleAt].At(from).nodeId, states[roleAt].At(from).role, states[epochAt].At(from).epoch)
  }

  predicate ValidStep(run: Run, k: nat)
    requires k < |run.steps| && |run.states| == |run.steps| + 1
  {
    var here := run.states[k];
    match run.steps[k]
    case Handle(site, roleAt, epochAt, hookOk) =>
      && roleAt <= epochAt <= k
      && run.states[k + 1] ==
         here.Put(site, Reconciled(here.At(site), Delivered(run.states, site.Peer(), roleAt, epochAt), hookOk))
    case TimeOut(site, hookOk) =>
      run.states[k + 1] == if hookOk then here.Put(site, Promoted(here.At(site))) else here
  }

  predicate ValidRun(run: Run) {
    && |run.states| == |run.steps| + 1
    && Initial(run.states[0])
    && forall k | 0 <= k < |run.steps| :: ValidStep(run, k)
  }

  /** `site` is active in state `i` of the run. */
  predicate ActiveAt(run: Run, i: nat, site: Site)
    requires i < |run.states|
  {
    run.states[i].At(site).Active()
  }

  /** No leadership begun up to state `k` is ranked above the one `node` describes. */
  ghost predicate Unbeaten(run: Run, k: nat, node: Heartbeat)
    requires k < |run.states|
  {
    forall i: nat, site: Site | i <= k && ActiveAt(run, i, site) ::
      !PeerShouldWin(node, run.states[i].At(site))
  }

  ghost predicate EverActive(run: Run, k: nat)
    requires k < |run.states|
  {
    exists i: nat, site: Site :: i <= k && ActiveAt(run, i, site)
  }

  /** Ids never change, and a node of the pair is always Leader or Follower. */
  lemma {:induction false} NodesKeepTheirIds(run: Run, k: nat, site: Site)
    requires ValidRun(run) && k < |run.states|
    ensures run.states[k].At(site).nodeId == run.states[0].At(site).nodeId
    ensures run.states[k].At(site).role == Leader || run.states[k].At(site).role == Follower
  {
    if k > 0 {
      NodesKeepTheirIds(run, k - 1, site);
      assert ValidStep(run, k - 1);
    }
  }

  /** One step never lowers an epoch, and a raised epoch belongs to a node that is now active. */
  lemma EpochStep(run: Run, k: nat, site: Site)
    requires ValidRun(run) && k < |run.steps|
    ensures run.states[k].At(site).epoch <= run.states[k + 1].At(site).epoch
    ensures run.states[k].At(site).epoch < run.states[k + 1].At(site).epoch ==> ActiveAt(run, k + 1, site)
    ensures !ActiveAt(run, k, site) && ActiveAt(run, k + 1, site)
            ==> run.states[k + 1].At(site).epoch == run.states[k].At(site).epoch + 1
  {
    assert ValidStep(run, k);
  }

  /** A node active in state `r` has begun a leadership with whatever epoch it shows in state `e`. */
  lemma {:induction false} ShownEpochWasBegun(run: Run, r: nat, e: nat, site: Site) returns (m: nat)
    requires ValidRun(run) && r <= e < |run.states|
    requires ActiveAt(run, r, site)
    ensures m <= e && ActiveAt(run, m, site)
    ensures run.states[m].At(site).epoch == run.states[e].At(site).epoch
    decreases e
  {
    if r == e || ActiveAt(run, e, site) {
      m := e;
    } else {
      EpochStep(run, e - 1, site);
      m := ShownEpochWasBegun(run, r, e - 1, site);
    }
  }

  /** Even a torn active heartbeat describes a leadership that was begun before it was delivered. */
  lemma DeliveredWasBegun(run: Run, k: nat, from: Site, roleAt: nat, epochAt: nat) returns (m: nat)
    requires ValidRun(run) && roleAt <= epochAt <= k < |run.states|
    requires Delivered(run.states, from, roleAt, epochAt).Active()
    ensures m <= k && ActiveAt(run, m, from)
    ensures run.states[m].At(from).epoch == Delivered(run.states, from, roleAt, epochAt).epoch
    ensures run.states[m].At(from).nodeId == Delivered(run.states, from, roleAt, epochAt).nodeId
  {
    m := ShownEpochWasBegun(run, roleAt, epochAt, from);
    NodesKeepTheirIds(run, m, from);
    NodesKeepTheirIds(run, roleAt, from);
  }

  /** Once anyone has been active, some active node holds an unbeaten leadership. */
  lemma {:induction false} SomeLeaderIsUnbeaten(run: Run, k: nat) returns (top: Site)
    requires ValidRun(run) && k < |run.states|
    ensures EverActive(run, k) ==> ActiveAt(run, k, top) && Unbeaten(run, k, run.states[k].At(top))
  {
    if k == 0 {
      var pair := run.states[0];
      top := if !pair.south.Active() || (pair.north.Active() && !PeerShouldWin(pair.north, pair.south))
             then North else South;
    } else {
      top := SomeLeaderIsUnbeaten(run, k - 1);
      if EverActive(run, k - 1) {
        top := UnbeatenSurvivesStep(run, k - 1, top);
      } else if ActiveAt(run, k, North) {
        assert !ActiveAt(run, k - 1, North) && !ActiveAt(run, k - 1, South);
        assert ValidStep(run, k - 1);
        top := North;
      } else {
        top := South;
      }
    }
  }

  lemma UnbeatenSurvivesStep(run: Run, k: nat, top: Site) returns (next: Site)
    requires ValidRun(run) && k < |run.steps|
    requires ActiveAt(run, k, top) && Unbeaten(run, k, run.states[k].At(top))
    ensures ActiveAt(run, k + 1, next) && Unbeaten(run, k + 1, run.states[k + 1].At(next))
  {
    var site := run.steps[k].site;
    assert ValidStep(run, k);
    if site == top {
      TopIsNotDemoted(run, k, top);
      next := top;
    } else {
      next := if ActiveAt(run, k + 1, site) && PeerShouldWin(run.states[k].At(top), run.states[k + 1].At(site))
              then site else top;
    }
  }

  /** The unbeaten node is left unchanged by whatever it handles. */
  lemma TopIsNotDemoted(run: Run, k: nat, top: Site)
    requires ValidRun(run) && k < |run.steps|
    requires ActiveAt(run, k, top) && Unbeaten(run, k, run.states[k].At(top))
    ensures run.states[k + 1].At(top) == run.states[k].At(top)
  {
    assert ValidStep(run, k);
    match run.steps[k]
    case TimeOut(_, _) =>
    case Handle(site, roleAt, epochAt, _) =>
      if site == top && Delivered(run.states, site.Peer(), roleAt, epochAt).Active() {
        var m := DeliveredWasBegun(run, k, site.Peer(), roleAt, epochAt);
      }
  }

  /**
   In every run, the highest-ranked leadership begun so far is still active: its node is active and
   has neither lost nor advanced its epoch.
   */
  lemma HighestLeadershipStillActive(run: Run, k: nat, i: nat, site: Site)
    requires ValidRun(run) && i <= k < |run.states|
    requires ActiveAt(run, i, site) && Unbeaten(run, k, run.states[i].At(site))
    ensures run.states[k].At(site) == run.states[i].At(site)
  {
    var top := SomeLeaderIsUnbeaten(run, k);
    NodesKeepTheirIds(run, k, top);
    NodesKeepTheirIds(run, k, site);
    NodesKeepTheirIds(run, i, site);
    var mine, best := run.states[i].At(site), run.states[k].At(top);
    assert !PeerShouldWin(mine, best) && !PeerShouldWin(best, mine);
    assert mine.nodeId == best.nodeId;
    assert run.states[0].At(site).nodeId == run.states[0].At(top).nodeId;
  }

  /** Once any node has been active the pair is never all-standby. */
  lemma NeverAllStandby(run: Run, i: nat, k: nat)
    requires ValidRun(run) && i <= k < |run.states|
    requires ActiveAt(run, i, North) || ActiveAt(run, i, South)
    ensures ActiveAt(run, k, North) || ActiveAt(run, k, South)
  {
    var top := SomeLeaderIsUnbeaten(run, k);
  }

  // ---------------------------------------------------------------------------------------------
  // Stretches without a promotion
  // ---------------------------------------------------------------------------------------------

  predicate DemotesAt(run: Run, k: nat, site: Site)
    requires k + 1 < |run.states|
  {
    ActiveAt(run, k, site) && !ActiveAt(run, k + 1, site)
  }

  predicate PromotesAt(run: Run, k: nat, site: Site)
    requires k + 1 < |run.states|
  {
    !ActiveAt(run, k, site) && ActiveAt(run, k + 1, site)
  }

  predicate NoPromotion(run: Run, first: nat, last: nat)
    requires first <= last < |run.states|
  {
    forall k, site: Site | first <= k < last :: !PromotesAt(run, k, site)
  }

  lemma {:induction false} StaysStandby(run: Run, first: nat, last: nat, site: Site)
    requires first <= last < |run.states| && NoPromotion(run, first, last)
    requires !ActiveAt(run, first, site)
    ensures !ActiveAt(run, last, site)
    decreases last
  {
    if first < last {
      assert !PromotesAt(run, last - 1, site);
      StaysStandby(run, first, last - 1, site);
    }
  }

  lemma {:induction false} EpochsStay(run: Run, first: nat, last: nat, site: Site)
    requires ValidRun(run) && first <= last < |run.states| && NoPromotion(run, first, last)
    ensures run.states[last].At(site).epoch == run.states[first].At(site).epoch
    decreases last
  {
    if first < last {
      EpochsStay(run, first, last - 1, site);
      assert ValidStep(run, last - 1);
      assert !PromotesAt(run, last - 1, site);
    }
  }

  /** A stretch without a promotion contains at most one demotion. */
  lemma AtMostOneDemotion(run: Run, first: nat, last: nat, a: nat, siteA: Site, b: nat, siteB: Site)
    requires ValidRun(run) && first <= a <= b < last < |run.states| && NoPromotion(run, first, last)
    requires DemotesAt(run, a, siteA) && DemotesAt(run, b, siteB)
    ensures a == b && siteA == siteB
  {
    if a < b {
      StaysStandby(run, a + 1, b, siteA);
      StaysStandby(run, b, b + 1, siteA);
      NeverAllStandby(run, a, b + 1);
    }
    NeverAllStandby(run, a, a + 1);
  }

  /** The better-ranked of two active nodes stays active for as long as nobody is promoted. */
  lemma WinnerStays(run: Run, first: nat, last: nat, winner: Site)
    requires ValidRun(run) && first <= last < |run.states| && NoPromotion(run, first, last)
    requires ActiveAt(run, first, winner) && ActiveAt(run, first, winner.Peer())
    requires PeerShouldWin(run.states[first].At(winner.Peer()), run.states[first].At(winner))
    ensures run.states[last].At(winner) == run.states[first].At(winner)
  {
    var top := SomeLeaderIsUnbeaten(run, first);
    assert top == winner;
    forall i: nat, site: Site | i <= last && ActiveAt(run, i, site)
      ensures !PeerShouldWin(run.states[first].At(winner), run.states[i].At(site))
    {
      if first < i {
        EpochsStay(run, first, i, site);
        NodesKeepTheirIds(run, i, site);
        NodesKeepTheirIds(run, first, site);
      }
    }
    HighestLeadershipStillActive(run, last, first, winner);
  }

  /**
   Dual-active resolution: if both nodes are active at the start of a stretch without a promotion, and
   within it the lower-ranked node handles one heartbeat sampled within it, then at its end exactly the
   lower-ranked node has stepped down.
   */
  lemma DualActiveResolves(run: Run, first: nat, last: nat, k: nat, winner: Site)
    requires ValidRun(run) && first <= k < last < |run.states| && NoPromotion(run, first, last)
    requires ActiveAt(run, first, winner) && ActiveAt(run, first, winner.Peer())
    requires PeerShouldWin(run.states[first].At(winner.Peer()), run.states[first].At(winner))
    requires run.steps[k].Handle? && run.steps[k].site == winner.Peer() && run.steps[k].hookOk
    requires first <= run.steps[k].roleAt
    ensures run.states[last].At(winner) == run.states[first].At(winner)
    ensures run.states[last].At(winner.Peer()) == Demoted(run.states[first].At(winner.Peer()))
  {
    var loser := winner.Peer();
    WinnerStays(run, first, last, winner);
    assert ValidStep(run, k);
    WinnerStays(run, first, run.steps[k].roleAt, winner);
    WinnerStays(run, first, run.steps[k].epochAt, winner);
    EpochsStay(run, first, k, loser);
    NodesKeepTheirIds(run, k, loser);
    NodesKeepTheirIds(run, first, loser);
    assert Delivered(run.states, winner, run.steps[k].roleAt, run.steps[k].epochAt) == run.states[first].At(winner);
    assert !ActiveAt(run, k + 1, loser);
    StaysStandby(run, k + 1, last, loser);
    EpochsStay(run, first, last, loser);
    NodesKeepTheirIds(run, last, loser);
  }

  /**
   Two-standby resolution: if both nodes are standby at the start of a stretch without a promotion, and the node
   with the lower id then handles a heartbeat sampled within it, that node leads with its next epoch.
   */
  lemma TwoStandbysResolve(run: Run, first: nat, k: nat, site: Site)
    requires ValidRun(run) && first <= k < |run.steps| && NoPromotion(run, first, k)
    requires !ActiveAt(run, first, North) && !ActiveAt(run, first, South)
    requires run.steps[k].Handle? && run.steps[k].site == site && run.steps[k].hookOk && first <= run.steps[k].roleAt
    requires run.states[0].At(site).nodeId < run.states[0].At(site.Peer()).nodeId
    ensures var before, after := run.states[first].At(site), run.states[k + 1].At(site);
            after.role == Leader && after.epoch == before.epoch + 1 && after.nodeId == before.nodeId
    ensures run.states[k + 1].At(site.Peer()) == run.states[k].At(site.Peer()) && !ActiveAt(run, k + 1, site.Peer())
  {
    assert ValidStep(run, k);
    StaysStandby(run, first, k, site);
    StaysStandby(run, first, k, site.Peer());
    StandbyWithin(run, first, k, run.steps[k].roleAt, site.Peer());
    EpochsStay(run, first, k, site);
    NodesKeepTheirIds(run, k, site);
    NodesKeepTheirIds(run, first, site);
    NodesKeepTheirIds(run, run.steps[k].roleAt, site.Peer());
  }

  lemma StandbyWithin(run: Run, first: nat, last: nat, k: nat, site: Site)
    requires first <= k <= last < |run.states| && NoPromotion(run, first, last) && !ActiveAt(run, first, site)
    ensures !ActiveAt(run, k, site)
  {
    assert forall j, other: Site | first <= j < k :: !PromotesAt(run, j, other);
    StaysStandby(run, first, k, site);
  }

  // ----- the monitor's ticks are steps of the pair

  lemma Extends(run: Run, step: Step, next: Pair)
    requires ValidRun(run)
    requires var longer := Run(run.states + [next], run.steps + [step]); ValidStep(longer, |run.steps|)
    ensures ValidRun(Run(run.states + [next], run.steps + [step]))
  {
    var longer := Run(run.states + [next], run.steps + [step]);
    forall k | 0 <= k < |longer.steps|
      ensures ValidStep(longer, k)
    {
      if k < |run.steps| {
        assert ValidStep(run, k);
      }
    }
  }

  /**
   Whatever a tick does to a node, with or without a reply, it does by `Handle` and `TimeOut` steps, so every run
   of ticks is a run of the pair.
   */
  lemma TickIsSteps(run: Run, site: Site, reply: Option<(nat, nat)>, hookOk: bool,
                    waited: nat, timeout: nat, takeoverHookOk: bool, after: Heartbeat) returns (longer: Run)
    requires ValidRun(run) && (reply.Some? ==> reply.value.0 <= reply.value.1 <= |run.steps|)
    requires var heartbeat := if reply.Some? then Some(Delivered(run.states, site.Peer(), reply.value.0, reply.value.1)) else None;
             Ticked(run.states[|run.steps|].At(site), after, heartbeat, hookOk, waited, timeout, takeoverHookOk)
    ensures ValidRun(longer) && run.states <= longer.states && run.steps <= longer.steps
    ensures longer.states[|longer.steps|] == run.states[|run.steps|].Put(site, after)
    ensures forall k | |run.steps| <= k < |longer.steps| :: longer.steps[k].site == site
  {
    longer := run;
    var here := run.states[|run.steps|];
    var heard := here.At(site);
    assert here.Put(site, heard) == here;
    if reply.Some? {
      var (roleAt, epochAt) := reply.value;
      heard := Reconciled(heard, Delivered(run.states, site.Peer(), roleAt, epochAt), hookOk);
      var step := Handle(site, roleAt, epochAt, hookOk);
      Extends(run, step, here.Put(site, heard));
      longer := Run(run.states + [here.Put(site, heard)], run.steps + [step]);
    }
    if after != heard {
      var step := TimeOut(site, true);
      var next := here.Put(site, after);
      Extends(longer, step, next);
      longer := Run(longer.states + [next], longer.steps + [step]);
    }
  }

  /** Such a run exists: both nodes start active, and the one with the higher id hears of the other. */
  lemma BothActiveAtStart(low: nat, high: nat)
    requires low < high
    ensures exists run: Run ::
              && ValidRun(run) && |run.steps| == 1 && NoPromotion(run, 0, 1)
              && ActiveAt(run, 0, North) && ActiveAt(run, 0, South) && DemotesAt(run, 0, South)
              && PeerShouldWin(run.states[0].south, run.states[0].north)
  {
    var north, south := Heartbeat(low, Leader, 1), Heartbeat(high, Leader, 1);
    var run := Run([Pair(north, south), Pair(north, Demoted(south))], [Handle(South, 0, 0, true)]);
    assert ValidStep(run, 0);
    assert ValidRun(run);
    assert DemotesAt(run, 0, South);
  }
}
