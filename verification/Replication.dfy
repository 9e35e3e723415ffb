/**
 Log replication from a primary to a follower: the follower pulls batches of events, or installs a
 snapshot whose sequence number was read before its contents, and ends up with the primary's state.
 */
module Replication {
  import opened Wrappers
  import opened EventStore

  /** The replica's memory, its persisted tables, and the last sequence number it persisted. */
  datatype Follower = Follower(memory: Table, tables: Table, lastApplied: nat)

  /** Replaying an event in memory: an expired contact is skipped, an expired affinity binding removed. */
  function ReplayInMemory(t: Table, p: Payload, now: nat): Table {
    if p.Put? && p.row.expiresAt <= now then
      if p.slot.Affinity? then t - {p.slot} else t
    else
      Write(t, p)
  }

  /** One event applied to memory and then, if the transaction succeeds, to the tables. */
  function Applied(f: Follower, e: Record, now: nat, persistOk: bool): Follower {
    var memory := ReplayInMemory(f.memory, e.payload, now);
    if persistOk then Follower(memory, Replay(f.tables, e.payload, now), e.seqNo)
    else f.(memory := memory)
  }

  /** A batch: stops at the first event that is not the next one, and at the first failed transaction. */
  function AppliedBatch(f: Follower, expected: nat, events: seq<Record>, times: seq<nat>, outcomes: seq<bool>)
    : (Follower, bool)
    requires |events| == |times| == |outcomes|
    decreases |events|
  {
    if events == [] then (f, true)
    else if events[0].seqNo != expected then (f, false)
    else if !outcomes[0] then (Applied(f, events[0], times[0], false), false)
    else AppliedBatch(Applied(f, events[0], times[0], true), expected + 1, events[1..], times[1..], outcomes[1..])
  }

  function Installed(f: Follower, s: Snapshot, now: nat, persistOk: bool): Follower {
    if persistOk then Follower(Unexpired(s.rows, now), Unexpired(s.rows, now), s.lastSeq)
    else f.(memory := Unexpired(s.rows, now))
  }

  class Replica {
    var memory: Table
    var tables: Table
    var lastApplied: nat

    function View(): Follower
      reads this
    {
      Follower(memory, tables, lastApplied)
    }

    constructor ()
      ensures View() == Follower(map[], map[], 0)
    {
      memory, tables, lastApplied := map[], map[], 0;
    }

    method ApplyHaEvent(event: Record, now: nat, persistOk: bool)
      modifies this
      ensures View() == Applied(old(View()), event, now, persistOk)
      ensures match event.payload
              case Put(slot, row) =>
                memory == if row.expiresAt > now then old(memory)[slot := row]
                          else if slot.Affinity? then old(memory) - {slot} else old(memory)
              case Delete(slot) => memory == old(memory) - {slot}
      ensures !persistOk ==> tables == old(tables) && lastApplied == old(lastApplied)
      ensures persistOk ==> lastApplied == event.seqNo
      ensures persistOk ==>
                match event.payload
                case Put(slot, row) => tables == if row.expiresAt > now then old(tables)[slot := row] else old(tables)
                case Delete(slot) => tables == old(tables) - {slot}
    {
      match event.payload {
        case Put(slot, row) =>
          if row.expiresAt > now {
            memory := memory[slot := row];
          } else if slot.Affinity? {
            memory := memory - {slot};
          }
        case Delete(slot) => memory := memory - {slot};
      }
      if persistOk {
        tables := Replay(tables, event.payload, now);
        lastApplied := event.seqNo;
      }
    }

    method ApplyHaEvents(events: seq<Record>, times: seq<nat>, outcomes: seq<bool>) returns (ok: bool)
      requires |events| == |times| == |outcomes|
      modifies this
      ensures (View(), ok) == AppliedBatch(old(View()), old(lastApplied) + 1, events, times, outcomes)
    {
      var expected := lastApplied + 1;
      var i := 0;
      assert events[0..] == events && times[0..] == times && outcomes[0..] == outcomes;
      while i < |events|
        invariant 0 <= i <= |events|
        invariant expected > 0
        invariant AppliedBatch(View(), expected, events[i..], times[i..], outcomes[i..])
               == AppliedBatch(old(View()), old(lastApplied) + 1, events, times, outcomes)
      {
        if events[i].seqNo != expected {
          return false;
        }
        ApplyHaEvent(events[i], times[i], outcomes[i]);
        if !outcomes[i] {
          return false;
        }
        assert events[i..][1..] == events[i + 1..];
        assert times[i..][1..] == times[i + 1..];
        assert outcomes[i..][1..] == outcomes[i + 1..];
        expected := expected + 1;
        i := i + 1;
      }
      return true;
    }

    method InstallStateSnapshot(snapshot: Snapshot, now: nat, persistOk: bool)
      modifies this
      ensures View() == Installed(old(View()), snapshot, now, persistOk)
      ensures forall slot :: slot in memory <==> slot in snapshot.rows && snapshot.rows[slot].expiresAt > now
      ensures forall slot | slot in memory :: memory[slot] == snapshot.rows[slot]
      ensures persistOk ==> tables == memory && lastApplied == snapshot.lastSeq
      ensures !persistOk ==> tables == old(tables) && lastApplied == old(lastApplied)
    {
      memory := Unexpired(snapshot.rows, now);
      if persistOk {
        tables := Unexpired(snapshot.rows, now);
        lastApplied := snapshot.lastSeq;
      }
    }
  }

  function ReplayAll(t: Table, events: seq<Record>, times: seq<nat>): Table
    requires |events| == |times|
    decreases |events|
  {
    if events == [] then t else ReplayAll(Replay(t, events[0].payload, times[0]), events[1..], times[1..])
  }

  function ReplayAllInMemory(t: Table, events: seq<Record>, times: seq<nat>): Table
    requires |events| == |times|
    decreases |events|
  {
    if events == [] then t
    else ReplayAllInMemory(ReplayInMemory(t, events[0].payload, times[0]), events[1..], times[1..])
  }

  /**
   Gap checking: whatever the batch and wherever it stops, the persisted sequence number has advanced
   over exactly the first `n` events, these are numbered consecutively from the next expected number,
   and the tables are the old ones with exactly these events replayed.
   */
  lemma {:induction false} BatchSkipsNothing(
    f: Follower, events: seq<Record>, times: seq<nat>, outcomes: seq<bool>) returns (n: nat)
    requires |events| == |times| == |outcomes|
    ensures n <= |events|
    ensures var (g, ok) := AppliedBatch(f, f.lastApplied + 1, events, times, outcomes);
            && g.lastApplied == f.lastApplied + n
            && g.tables == ReplayAll(f.tables, events[..n], times[..n])
            && (ok <==> n == |events|)
            && (!ok ==> events[n].seqNo != g.lastApplied + 1 || !outcomes[n])
    ensures forall i | 0 <= i < n :: events[i].seqNo == f.lastApplied + i + 1 && outcomes[i]
    decreases |events|
  {
    if events == [] || events[0].seqNo != f.lastApplied + 1 || !outcomes[0] {
      n := 0;
    } else {
      var g := Applied(f, events[0], times[0], true);
      var rest := BatchSkipsNothing(g, events[1..], times[1..], outcomes[1..]);
      n := rest + 1;
      assert events[..n][1..] == events[1..][..rest] && times[..n][1..] == times[1..][..rest];
    }
  }

  /**
   Memory has met the consecutive events up to the first that is out of sequence, or up to and including the
   first whose transaction failed.
   */
  lemma {:induction false} BatchReachesMemory(
    f: Follower, expected: nat, events: seq<Record>, times: seq<nat>, outcomes: seq<bool>) returns (met: nat)
    requires |events| == |times| == |outcomes|
    ensures met <= |events|
    ensures AppliedBatch(f, expected, events, times, outcomes).0.memory
            == ReplayAllInMemory(f.memory, events[..met], times[..met])
    ensures forall i | 0 <= i < met :: events[i].seqNo == expected + i && (i < met - 1 ==> outcomes[i])
    ensures met < |events| ==> events[met].seqNo != expected + met || (met > 0 && !outcomes[met - 1])
    decreases |events|
  {
    if events == [] || events[0].seqNo != expected {
      met := 0;
    } else if !outcomes[0] {
      met := 1;
      assert events[..1][1..] == [] && times[..1][1..] == [];
    } else {
      var g := Applied(f, events[0], times[0], true);
      var rest := BatchReachesMemory(g, expected + 1, events[1..], times[1..], outcomes[1..]);
      met := rest + 1;
      assert events[..met][1..] == events[1..][..rest] && times[..met][1..] == times[1..][..rest];
    }
  }

  // ---------------------------------------------------------------------------------------------
  // The primary and its follower
  // ---------------------------------------------------------------------------------------------

  /**
   `history` is every write in the order of their numbers; the first `store.appended` of them have been logged.
   All have reached the primary's memory but those of `waiting`, which gives for a slot the position of its
   write that was logged and has not.  `seen` bounds the versions of the history the follower has met.
   */
  datatype System = System(
    now: nat, history: seq<Payload>, memory: Table, waiting: map<Slot, nat>, store: Store, follower: Follower, seen: nat)

  datatype Step =
    | Tick(later: nat)
      // a background write reaches memory and is logged later, in that order
    | WriteToMemory(payload: Payload)
    | LogNext
      // a required write is logged and reaches memory later
    | LogRequired(payload: Payload)
    | ApplyRequired(slot: Slot)
    | Prune(dropped: set<Slot>)
    | Retain(retentionSeconds: nat)
      // the follower handles event `index` of the response to "after, limit" that the primary gave in state `servedAt`
    | Deliver(servedAt: nat, after: nat, limit: nat, index: nat, persistOk: bool)
      // the follower installs a snapshot whose number was read in state `seqAt` and whose rows were
      // read, one by one, between there and state `readBy`
    | Install(seqAt: nat, readBy: nat, snapshot: Snapshot, persistOk: bool)
    | Restart
    | FollowerCleanup(dropped: set<Slot>)

  datatype Run = Run(states: seq<System>, steps: seq<Step>)

  function Without(t: Table, dropped: set<Slot>, now: nat): Table {
    map slot | slot in t && !(slot in dropped && t[slot].expiresAt <= now) :: t[slot]
  }

  predicate Initial(s: System) {
    s.history == [] && s.memory == map[] && s.waiting == map[] && s.store == Store(map[], [], 0, 0)
    && s.follower == Follower(map[], map[], 0) && s.seen == 0
  }

  function Max(a: nat, b: nat): nat {
    if a < b then b else a
  }

  /** The event a delivery step hands to the follower, if the response holds that many. */
  function DeliveredEvent(run: Run, step: Step): Option<Record>
    requires step.Deliver? && step.servedAt < |run.states|
  {
    var r := EventsAfter(run.states[step.servedAt].store.log, step.after, step.limit);
    if step.index < |r.events| then Some(r.events[step.index]) else None
  }

  predicate Accepts(s: System, e: Option<Record>) {
    e.Some? && e.value.seqNo == s.follower.lastApplied + 1
  }

  /** The snapshot row of a slot is what a reader of the primary's memory saw in state `i`. */
  predicate RowReadAt(run: Run, snapshot: Snapshot, slot: Slot, i: nat)
    requires i < |run.states|
  {
    LiveRow(run.states[i].memory, slot, run.states[i].now)
      == if slot in snapshot.rows then Some(snapshot.rows[slot]) else None
  }

  ghost predicate RowReadWithin(run: Run, snapshot: Snapshot, slot: Slot, first: nat, last: nat)
    requires last < |run.states|
  {
    exists i: nat :: first <= i <= last && RowReadAt(run, snapshot, slot, i)
  }

  ghost predicate ValidSnapshot(run: Run, k: nat, step: Step)
    requires step.Install? && k < |run.states|
  {
    && step.seqAt <= step.readBy <= k
    // the pull loop asks for a snapshot after the follower's last change
    && run.states[step.seqAt].follower.lastApplied == run.states[k].follower.lastApplied
    && step.snapshot.lastSeq == LatestSeq(run.states[step.seqAt].store.log)
    && forall slot: Slot :: RowReadWithin(run, step.snapshot, slot, step.seqAt, step.readBy)
  }

  ghost predicate ValidStep(run: Run, k: nat)
    requires k < |run.steps| && |run.states| == |run.steps| + 1
  {
    var s, t := run.states[k], run.states[k + 1];
    match run.steps[k]
    case Tick(later) => later >= s.now && t == s.(now := later)
    case WriteToMemory(p) =>
      p.slot !in s.waiting && t == s.(history := s.history + [p], memory := Write(s.memory, p))
    case LogNext =>
      s.store.appended < |s.history| && t == s.(store := Appended(s.store, s.history[s.store.appended], s.now))
    case LogRequired(p) =>
      && s.store.appended == |s.history| && p.slot !in s.waiting
      && t == s.(history := s.history + [p], waiting := s.waiting[p.slot := |s.history|],
                 store := Appended(s.store, p, s.now))
    case ApplyRequired(slot) =>
      && slot in s.waiting && s.waiting[slot] < |s.history|
      && t == s.(memory := Write(s.memory, s.history[s.waiting[slot]]), waiting := s.waiting - {slot})
    case Prune(dropped) => t == s.(memory := Without(s.memory, dropped, s.now))
    case Retain(retentionSeconds) => t == s.(store := CleanedUp(s.store, s.now, retentionSeconds))
    case Deliver(servedAt, _, _, _, persistOk) =>
      && servedAt <= k
      && var e := DeliveredEvent(run, run.steps[k]);
         t == if Accepts(s, e)
              then s.(follower := Applied(s.follower, e.value, s.now, persistOk), seen := Max(s.seen, e.value.seqNo))
              else s
    case Install(_, readBy, snapshot, persistOk) =>
      && ValidSnapshot(run, k, run.steps[k])
      && var m := |run.states[readBy].history|;
         t == s.(follower := Installed(s.follower, snapshot, s.now, persistOk),
                 seen := if persistOk then m else Max(s.seen, m))
    case Restart => t == s.(follower := s.follower.(memory := Unexpired(s.follower.tables, s.now)))
    case FollowerCleanup(dropped) =>
      t == s.(follower := s.follower.(memory := Without(s.follower.memory, dropped, s.now),
                                      tables := Without(s.follower.tables, dropped, s.now)))
  }

  ghost predicate ValidRun(run: Run) {
    && |run.states| == |run.steps| + 1
    && Initial(run.states[0])
    && forall k | 0 <= k < |run.steps| :: ValidStep(run, k)
  }

  /** An upsert that has already expired meets a row that has not. */
  predicate StaleHit(t: Table, p: Payload, now: nat) {
    p.Put? && p.row.expiresAt <= now && LiveRow(t, p.slot, now).Some?
  }

  /** No accepted event of the run is an expired upsert over a live row. */
  ghost predicate NoStaleHit(run: Run)
    requires |run.states| == |run.steps| + 1
  {
    forall k | 0 <= k < |run.steps| && run.steps[k].Deliver? && run.steps[k].servedAt <= k ::
      var s, e := run.states[k], DeliveredEvent(run, run.steps[k]);
      Accepts(s, e) ==>
        && !StaleHit(s.follower.tables, e.value.payload, s.now)
        && (e.value.payload.slot.Contact? ==> !StaleHit(s.follower.memory, e.value.payload, s.now))
  }

  /** The slot's row in memory lacks a write numbered `n` or lower. */
  predicate Behind(s: System, slot: Slot, n: nat) {
    slot in s.waiting && s.waiting[slot] < n
  }

  predicate ReadCurrent(run: Run, step: Step, slot: Slot, n: nat, i: nat)
    requires step.Install? && i < |run.states|
  {
    RowReadAt(run, step.snapshot, slot, i) && !Behind(run.states[i], slot, n)
  }

  /** The slot's row of the snapshot that step `k` installs was not read behind the number the follower ends up with. */
  ghost predicate CurrentRow(run: Run, k: nat, slot: Slot)
    requires k < |run.steps| && |run.states| == |run.steps| + 1
    requires run.steps[k].Install? && run.steps[k].readBy <= k
  {
    var step, n := run.steps[k], run.states[k + 1].follower.lastApplied;
    exists i: nat :: step.seqAt <= i <= step.readBy && ReadCurrent(run, step, slot, n, i)
  }

  ghost predicate RowsAreCurrent(run: Run)
    requires |run.states| == |run.steps| + 1
  {
    forall k, slot: Slot | 0 <= k < |run.steps| && run.steps[k].Install? && run.steps[k].readBy <= k ::
      CurrentRow(run, k, slot)
  }

  // ----- versions: every row the follower shows is the history's row at some version

  predicate Reflects(t: Table, history: seq<Payload>, slot: Slot, v: nat, now: nat) {
    v <= |history| && LiveRow(t, slot, now) == LiveRow(Fold(history[..v]), slot, now)
  }

  ghost predicate HasVersion(t: Table, history: seq<Payload>, slot: Slot, lo: nat, hi: nat, now: nat) {
    exists v: nat :: lo <= v <= hi && Reflects(t, history, slot, v, now)
  }

  ghost predicate Fresh(t: Table, history: seq<Payload>, lo: nat, hi: nat, now: nat) {
    forall slot: Slot :: HasVersion(t, history, slot, lo, hi, now)
  }

  ghost predicate SameLive(t: Table, u: Table, now: nat) {
    forall slot: Slot :: LiveRow(t, slot, now) == LiveRow(u, slot, now)
  }

  ghost predicate LogInv(s: System) {
    Contiguous(s.store.log, s.history, s.store.appended) && Dated(s.store.log, s.now)
  }

  /** The version of the history that memory shows for a slot. */
  function Shown(s: System, slot: Slot): nat {
    if slot in s.waiting then s.waiting[slot] else |s.history|
  }

  /** A waiting write is the last one of its slot. */
  ghost predicate MemoryInv(s: System) {
    && (forall slot | slot in s.waiting :: Last(s.history, slot, s.waiting[slot]))
    && forall slot: Slot :: Reflects(s.memory, s.history, slot, Shown(s, slot), s.now)
  }

  ghost predicate FollowerInv(s: System) {
    && s.follower.lastApplied <= s.seen <= |s.history|
    && Fresh(s.follower.memory, s.history, s.follower.lastApplied, s.seen, s.now)
    && Fresh(s.follower.tables, s.history, s.follower.lastApplied, s.seen, s.now)
  }

  ghost predicate Inv(s: System) {
    LogInv(s) && MemoryInv(s) && FollowerInv(s)
  }

  lemma FoldNext(history: seq<Payload>, v: nat)
    requires v < |history|
    ensures Fold(history[..v + 1]) == Write(Fold(history[..v]), history[v])
  {
    assert history[..v + 1][..v] == history[..v];
  }

  /** A follower that keeps its versions may meet later times, longer histories and wider bounds. */
  lemma FreshWeakens(t: Table, history: seq<Payload>, lo: nat, hi: nat, now: nat,
                     longer: seq<Payload>, lo': nat, hi': nat, later: nat)
    requires Fresh(t, history, lo, hi, now)
    requires history <= longer && lo' <= lo && hi <= hi' && now <= later
    ensures Fresh(t, longer, lo', hi', later)
  {
    forall slot: Slot
      ensures HasVersion(t, longer, slot, lo', hi', later)
    {
      assert HasVersion(t, history, slot, lo, hi, now);
      var v: nat :| lo <= v <= hi && Reflects(t, history, slot, v, now);
      assert longer[..v] == history[..v];
      assert Reflects(t, longer, slot, v, later);
    }
  }

  /** Dropping or hiding expired rows changes no version. */
  lemma FreshIgnoresExpired(t: Table, u: Table, history: seq<Payload>, lo: nat, hi: nat, now: nat)
    requires Fresh(t, history, lo, hi, now) && SameLive(t, u, now)
    ensures Fresh(u, history, lo, hi, now)
  {
    forall slot: Slot
      ensures HasVersion(u, history, slot, lo, hi, now)
    {
      assert HasVersion(t, history, slot, lo, hi, now);
      var v: nat :| lo <= v <= hi && Reflects(t, history, slot, v, now);
      assert Reflects(u, history, slot, v, now);
    }
  }

  /** `u` is `t` after event `p`: written, or (if expired) removed, or skipped over no live row. */
  predicate Replayed(t: Table, u: Table, p: Payload, now: nat) {
    || u == Write(t, p)
    || (p.Put? && p.row.expiresAt <= now && u == t - {p.slot})
    || (p.Put? && p.row.expiresAt <= now && u == t && !StaleHit(t, p, now))
  }

  lemma ReplayedRow(t: Table, u: Table, p: Payload, slot: Slot, now: nat)
    requires Replayed(t, u, p, now)
    ensures slot != p.slot ==> LiveRow(u, slot, now) == LiveRow(t, slot, now)
    ensures forall base: Table :: LiveRow(u, p.slot, now) == LiveRow(Write(base, p), p.slot, now)
  {
  }

  /** Replaying event `n + 1` lifts every row from version `n` or later to `n + 1` or later. */
  lemma ReplayLiftsVersions(t: Table, u: Table, history: seq<Payload>, n: nat, hi: nat, now: nat)
    requires n < |history| && n <= hi && Fresh(t, history, n, hi, now)
    requires Replayed(t, u, history[n], now)
    ensures Fresh(u, history, n + 1, Max(hi, n + 1), now)
  {
    var p, lo', hi' := history[n], n + 1, Max(hi, n + 1);
    FoldNext(history, n);
    forall slot: Slot
      ensures HasVersion(u, history, slot, lo', hi', now)
    {
      assert HasVersion(t, history, slot, n, hi, now);
      var v: nat :| n <= v <= hi && Reflects(t, history, slot, v, now);
      ReplayedRow(t, u, p, slot, now);
      if slot == p.slot || v == n {
        assert Reflects(u, history, slot, n + 1, now);
      } else {
        assert Reflects(u, history, slot, v, now);
      }
    }
  }

  /** Replaying the next event over equal live rows gives equal live rows. */
  lemma SameLiveReplayed(t: Table, u: Table, history: seq<Payload>, n: nat, now: nat)
    requires n < |history| && SameLive(t, Fold(history[..n]), now) && Replayed(t, u, history[n], now)
    ensures SameLive(u, Fold(history[..n + 1]), now)
  {
    FoldNext(history, n);
    var before, after := Fold(history[..n]), Fold(history[..n + 1]);
    forall slot: Slot
      ensures LiveRow(u, slot, now) == LiveRow(after, slot, now)
    {
      assert LiveRow(t, slot, now) == LiveRow(before, slot, now);
      ReplayedRow(t, u, history[n], slot, now);
    }
  }

  /** When both bounds meet, the rows are exactly the fold at that version. */
  lemma FreshAtOneVersion(t: Table, history: seq<Payload>, v: nat, now: nat)
    requires v <= |history| && Fresh(t, history, v, v, now)
    ensures SameLive(t, Fold(history[..v]), now)
  {
    forall slot: Slot
      ensures LiveRow(t, slot, now) == LiveRow(Fold(history[..v]), slot, now)
    {
      assert HasVersion(t, history, slot, v, v, now);
    }
  }

  // ----- the invariant holds in every state of every run

  ghost predicate HistoryGrows(run: Run, k: nat)
    requires k < |run.states|
  {
    forall i, j | 0 <= i <= j <= k ::
      run.states[i].history <= run.states[j].history && run.states[i].now <= run.states[j].now
  }

  lemma HistoryGrowsStep(run: Run, k: nat)
    requires ValidRun(run) && k < |run.steps| && HistoryGrows(run, k)
    ensures HistoryGrows(run, k + 1)
  {
    assert ValidStep(run, k);
  }

  ghost predicate InvUpTo(run: Run, k: nat)
    requires k < |run.states|
  {
    forall i | 0 <= i <= k :: Inv(run.states[i])
  }

  lemma DeliverKeepsInv(run: Run, k: nat)
    requires ValidRun(run) && NoStaleHit(run) && k < |run.steps| && run.steps[k].Deliver?
    requires InvUpTo(run, k) && HistoryGrows(run, k)
    ensures FollowerInv(run.states[k + 1])
  {
    assert ValidStep(run, k);
    var s, step := run.states[k], run.steps[k];
    var e := DeliveredEvent(run, step);
    if Accepts(s, e) {
      var f, served := s.follower, run.states[step.servedAt];
      var g := Applied(f, e.value, s.now, step.persistOk);
      assert Inv(served) && served.history <= s.history;
      ServedEventsAreHistory(served.store.log, served.history, served.store.appended, step.after, step.limit, step.index);
      assert e.value.payload == s.history[f.lastApplied];
      ReplayLiftsVersions(f.memory, g.memory, s.history, f.lastApplied, s.seen, s.now);
      if step.persistOk {
        ReplayLiftsVersions(f.tables, g.tables, s.history, f.lastApplied, s.seen, s.now);
      } else {
        FreshWeakens(g.memory, s.history, f.lastApplied + 1, Max(s.seen, e.value.seqNo), s.now,
                     s.history, f.lastApplied, Max(s.seen, e.value.seqNo), s.now);
        FreshWeakens(f.tables, s.history, f.lastApplied, s.seen, s.now,
                     s.history, f.lastApplied, Max(s.seen, e.value.seqNo), s.now);
      }
    }
  }

  /** The rows of a fuzzy snapshot are versions of the history no older than the number the follower ends up with. */
  lemma SnapshotIsFresh(run: Run, k: nat)
    requires ValidRun(run) && RowsAreCurrent(run) && k < |run.steps| && run.steps[k].Install?
    requires InvUpTo(run, k) && HistoryGrows(run, k) && ValidSnapshot(run, k, run.steps[k])
    ensures var s, step := run.states[k], run.steps[k];
            Fresh(Unexpired(step.snapshot.rows, s.now), s.history,
                  run.states[k + 1].follower.lastApplied, |run.states[step.readBy].history|, s.now)
  {
    var s, step := run.states[k], run.steps[k];
    var t := Unexpired(step.snapshot.rows, s.now);
    var lo, hi := run.states[k + 1].follower.lastApplied, |run.states[step.readBy].history|;
    NumberIsInHistory(run, k);
    forall slot: Slot
      ensures HasVersion(t, s.history, slot, lo, hi, s.now)
    {
      assert CurrentRow(run, k, slot);
      var i: nat :| step.seqAt <= i <= step.readBy && ReadCurrent(run, step, slot, lo, i);
      ReadRowIsVersion(run, k, slot, i);
      assert Reflects(t, s.history, slot, Shown(run.states[i], slot), s.now);
    }
  }

  lemma NumberIsInHistory(run: Run, k: nat)
    requires ValidRun(run) && k < |run.steps| && run.steps[k].Install?
    requires InvUpTo(run, k) && HistoryGrows(run, k) && ValidSnapshot(run, k, run.steps[k])
    ensures run.states[k + 1].follower.lastApplied <= |run.states[run.steps[k].seqAt].history|
  {
    assert ValidStep(run, k);
    assert Inv(run.states[run.steps[k].seqAt]);
  }

  lemma ReadRowIsVersion(run: Run, k: nat, slot: Slot, i: nat)
    requires ValidRun(run) && k < |run.steps| && run.steps[k].Install? && i <= run.steps[k].readBy <= k
    requires InvUpTo(run, k) && HistoryGrows(run, k) && RowReadAt(run, run.steps[k].snapshot, slot, i)
    ensures var s := run.states[k];
            Reflects(Unexpired(run.steps[k].snapshot.rows, s.now), s.history, slot, Shown(run.states[i], slot), s.now)
    ensures Shown(run.states[i], slot) <= |run.states[run.steps[k].readBy].history|
  {
    var s, at := run.states[k], run.states[i];
    var v := Shown(at, slot);
    assert Inv(at) && at.history <= s.history && at.now <= s.now;
    assert at.history <= run.states[run.steps[k].readBy].history;
    assert Reflects(at.memory, at.history, slot, v, at.now);
    assert s.history[..v] == at.history[..v];
  }

  lemma InstallKeepsInv(run: Run, k: nat)
    requires ValidRun(run) && RowsAreCurrent(run) && k < |run.steps| && run.steps[k].Install?
    requires InvUpTo(run, k) && HistoryGrows(run, k)
    ensures FollowerInv(run.states[k + 1])
  {
    assert ValidStep(run, k);
    var s, step := run.states[k], run.steps[k];
    var rows, hi := Unexpired(step.snapshot.rows, s.now), |run.states[step.readBy].history|;
    SnapshotIsFresh(run, k);
    NumberIsInHistory(run, k);
    assert run.states[step.seqAt].history <= run.states[step.readBy].history <= s.history;
    if !step.persistOk {
      var last := s.follower.lastApplied;
      FreshWeakens(rows, s.history, last, hi, s.now, s.history, last, Max(s.seen, hi), s.now);
      FreshWeakens(s.follower.tables, s.history, last, s.seen, s.now, s.history, last, Max(s.seen, hi), s.now);
    }
  }

  // ----- the primary's own steps

  lemma {:induction false} FoldUnchanged(history: seq<Payload>, slot: Slot, from: nat, upTo: nat)
    requires from <= upTo <= |history| && forall i | from <= i < upTo :: history[i].slot != slot
    ensures slot in Fold(history[..upTo]) <==> slot in Fold(history[..from])
    ensures slot in Fold(history[..upTo]) ==> Fold(history[..upTo])[slot] == Fold(history[..from])[slot]
    decreases upTo
  {
    if from < upTo {
      FoldUnchanged(history, slot, from, upTo - 1);
      FoldNext(history, upTo - 1);
    }
  }

  lemma ReflectsLater(t: Table, history: seq<Payload>, longer: seq<Payload>, slot: Slot, v: nat, now: nat, later: nat)
    requires Reflects(t, history, slot, v, now) && history <= longer && now <= later
    ensures Reflects(t, longer, slot, v, later)
  {
    assert longer[..v] == history[..v];
  }

  lemma FoldAppend(history: seq<Payload>, p: Payload)
    ensures Fold(history + [p]) == Write(Fold(history), p)
    ensures (history + [p])[..|history|] == history && (history + [p])[..|history| + 1] == history + [p]
  {
    assert (history + [p])[..|history|] == history;
  }

  lemma RowAfterWrite(s: System, p: Payload, slot: Slot)
    requires MemoryInv(s) && p.slot !in s.waiting
    ensures var longer := s.history + [p];
            var v := if slot in s.waiting then s.waiting[slot] else |longer|;
            Reflects(Write(s.memory, p), longer, slot, v, s.now)
  {
    var longer, n := s.history + [p], |s.history|;
    assert Reflects(s.memory, s.history, slot, Shown(s, slot), s.now);
    FoldAppend(s.history, p);
    assert s.history[..n] == s.history;
    if slot in s.waiting {
      ReflectsLater(s.memory, s.history, longer, slot, s.waiting[slot], s.now, s.now);
    }
  }

  /** A write reaches memory at once. */
  lemma WriteKeepsMemory(s: System, p: Payload)
    requires MemoryInv(s) && p.slot !in s.waiting
    ensures MemoryInv(s.(history := s.history + [p], memory := Write(s.memory, p)))
  {
    var t := s.(history := s.history + [p], memory := Write(s.memory, p));
    forall slot: Slot
      ensures Reflects(t.memory, t.history, slot, Shown(t, slot), t.now)
    {
      RowAfterWrite(s, p, slot);
    }
    LastStays(s, t.history);
  }

  lemma LastStays(s: System, longer: seq<Payload>)
    requires MemoryInv(s) && s.history <= longer
    requires forall i | |s.history| <= i < |longer| :: longer[i].slot !in s.waiting
    ensures forall slot | slot in s.waiting :: Last(longer, slot, s.waiting[slot])
  {
    forall slot | slot in s.waiting
      ensures Last(longer, slot, s.waiting[slot])
    {
      assert Last(s.history, slot, s.waiting[slot]);
    }
  }

  lemma RowAfterLogging(s: System, p: Payload, slot: Slot)
    requires MemoryInv(s) && p.slot !in s.waiting
    ensures var longer, waiting := s.history + [p], s.waiting[p.slot := |s.history|];
            var v := if slot in waiting then waiting[slot] else |longer|;
            Reflects(s.memory, longer, slot, v, s.now)
  {
    var longer, n := s.history + [p], |s.history|;
    assert Reflects(s.memory, s.history, slot, Shown(s, slot), s.now);
    FoldAppend(s.history, p);
    assert s.history[..n] == s.history;
    if slot in s.waiting {
      ReflectsLater(s.memory, s.history, longer, slot, s.waiting[slot], s.now, s.now);
    }
  }

  /** A write is logged before it reaches memory. */
  lemma LoggingKeepsMemory(s: System, p: Payload)
    requires MemoryInv(s) && p.slot !in s.waiting
    ensures MemoryInv(s.(history := s.history + [p], waiting := s.waiting[p.slot := |s.history|]))
  {
    var t := s.(history := s.history + [p], waiting := s.waiting[p.slot := |s.history|]);
    forall slot: Slot
      ensures Reflects(t.memory, t.history, slot, Shown(t, slot), t.now)
    {
      RowAfterLogging(s, p, slot);
    }
    LastStays(s, t.history);
    assert Last(t.history, p.slot, |s.history|);
  }

  /** A logged write reaches memory. */
  lemma ApplyingKeepsMemory(s: System, slot: Slot)
    requires MemoryInv(s) && slot in s.waiting && s.waiting[slot] < |s.history|
    ensures MemoryInv(s.(memory := Write(s.memory, s.history[s.waiting[slot]]), waiting := s.waiting - {slot}))
  {
    var at := s.waiting[slot];
    var t := s.(memory := Write(s.memory, s.history[at]), waiting := s.waiting - {slot});
    assert Last(s.history, slot, at);
    FoldNext(s.history, at);
    FoldUnchanged(s.history, slot, at + 1, |s.history|);
    forall other: Slot
      ensures Reflects(t.memory, t.history, other, Shown(t, other), t.now)
    {
      assert Reflects(s.memory, s.history, other, Shown(s, other), s.now);
    }
  }

  lemma TimeKeepsMemory(s: System, later: nat)
    requires MemoryInv(s) && s.now <= later
    ensures MemoryInv(s.(now := later))
  {
    forall slot: Slot
      ensures Reflects(s.memory, s.history, slot, Shown(s.(now := later), slot), later)
    {
      ReflectsLater(s.memory, s.history, s.history, slot, Shown(s, slot), s.now, later);
    }
  }

  lemma PruningKeepsMemory(s: System, dropped: set<Slot>)
    requires MemoryInv(s)
    ensures MemoryInv(s.(memory := Without(s.memory, dropped, s.now)))
  {
    var t := s.(memory := Without(s.memory, dropped, s.now));
    forall slot: Slot
      ensures Reflects(t.memory, t.history, slot, Shown(t, slot), t.now)
    {
      assert Reflects(s.memory, s.history, slot, Shown(s, slot), s.now);
    }
  }

  lemma MemoryStep(run: Run, k: nat)
    requires ValidRun(run) && k < |run.steps| && MemoryInv(run.states[k])
    ensures MemoryInv(run.states[k + 1])
  {
    assert ValidStep(run, k);
    var s, t := run.states[k], run.states[k + 1];
    match run.steps[k]
    case Tick(later) => TimeKeepsMemory(s, later);
    case WriteToMemory(p) => WriteKeepsMemory(s, p);
    case LogRequired(p) =>
      LoggingKeepsMemory(s, p);
      SameMemory(s.(history := s.history + [p], waiting := s.waiting[p.slot := |s.history|]), t);
    case ApplyRequired(slot) => ApplyingKeepsMemory(s, slot);
    case Prune(dropped) => PruningKeepsMemory(s, dropped);
    case _ => SameMemory(s, t);
  }

  lemma SameMemory(s: System, t: System)
    requires MemoryInv(s) && t.memory == s.memory && t.history == s.history && t.waiting == s.waiting && t.now == s.now
    ensures MemoryInv(t)
  {
    forall slot: Slot
      ensures Reflects(t.memory, t.history, slot, Shown(t, slot), t.now)
    {
      assert Reflects(s.memory, s.history, slot, Shown(s, slot), s.now);
    }
  }

  /** In every run the log is a contiguous, dated window of the history. */
  lemma {:induction false} LogHolds(run: Run, k: nat)
    requires ValidRun(run) && k < |run.states|
    ensures LogInv(run.states[k])
  {
    if k > 0 {
      LogHolds(run, k - 1);
      assert ValidStep(run, k - 1);
      var s, t := run.states[k - 1], run.states[k];
      match run.steps[k - 1]
      case LogNext => AppendKeepsLog(s.store, s.history, s.now);
      case LogRequired(p) => AppendKeepsLog(s.store, t.history, s.now);
      case Retain(retentionSeconds) => CleanupKeepsLog(s.store, s.history, s.now, retentionSeconds);
      case _ =>
    }
  }

  /** In every run memory shows each slot's last write, or the version just before it while that write waits. */
  lemma {:induction false} MemoryHolds(run: Run, k: nat)
    requires ValidRun(run) && k < |run.states|
    ensures MemoryInv(run.states[k])
  {
    if k > 0 {
      MemoryHolds(run, k - 1);
      MemoryStep(run, k - 1);
    }
  }

  lemma RowAfterAppend(s: System, t: System, slot: Slot)
    requires Reflects(s.store.tables, s.history, slot, s.store.appended, s.now)
    requires s.history <= t.history && s.store.appended < |t.history| && t.now == s.now
    requires t.store == Appended(s.store, t.history[s.store.appended], s.now)
    ensures Reflects(t.store.tables, t.history, slot, t.store.appended, t.now)
  {
    var n := s.store.appended;
    assert t.history[..n] == s.history[..n];
    FoldNext(t.history, n);
  }

  /** In every run the primary's tables show, up to expired rows, exactly the writes that were logged. */
  lemma {:induction false} TablesHold(run: Run, k: nat, slot: Slot)
    requires ValidRun(run) && k < |run.states|
    ensures var s := run.states[k];
            && s.store.appended <= |s.history|
            && LiveRow(s.store.tables, slot, s.now) == LiveRow(Fold(s.history[..s.store.appended]), slot, s.now)
  {
    if k > 0 {
      TablesHold(run, k - 1, slot);
      assert ValidStep(run, k - 1);
      var s, t := run.states[k - 1], run.states[k];
      match run.steps[k - 1]
      case LogNext => RowAfterAppend(s, t, slot);
      case LogRequired(p) => RowAfterAppend(s, t, slot);
      case Retain(_) =>
      case _ => ReflectsLater(s.store.tables, s.history, t.history, slot, s.store.appended, s.now, t.now);
    }
  }

  /**
   In every state of every run whose log is not empty, a follower is told that it needs a snapshot exactly when
   its next event is gone, and is otherwise served exactly the next logged writes up to the clamped limit.
   */
  lemma EveryRunServesTheNextEvents(run: Run, k: nat, after: nat, limit: nat)
    requires ValidRun(run) && k < |run.states| && run.states[k].store.log != []
    ensures var s := run.states[k];
            var r := EventsAfter(s.store.log, after, limit);
            && s.store.appended <= |s.history|
            && (r.snapshotRequired <==> after < s.store.appended - |s.store.log|)
            && r.latestSeq == s.store.appended
            && (!r.snapshotRequired && after < s.store.appended ==>
                  |r.events| == if s.store.appended - after < Clamp(limit) then s.store.appended - after else Clamp(limit))
            && forall i | 0 <= i < |r.events| ::
                 r.events[i].seqNo == after + i + 1 <= |s.history| && r.events[i].payload == s.history[after + i]
  {
    LogHolds(run, k);
    var s := run.states[k];
    ServesExactlyTheNextEvents(s.store.log, s.history, s.store.appended, after, limit);
  }

  lemma LocalStepKeepsFollower(run: Run, k: nat)
    requires ValidRun(run) && k < |run.steps| && !run.steps[k].Deliver? && !run.steps[k].Install?
    requires FollowerInv(run.states[k])
    ensures FollowerInv(run.states[k + 1])
  {
    assert ValidStep(run, k);
    var s, t := run.states[k], run.states[k + 1];
    var f := s.follower;
    match run.steps[k]
    case Restart =>
      FreshIgnoresExpired(f.tables, t.follower.memory, s.history, f.lastApplied, s.seen, s.now);
    case FollowerCleanup(_) =>
      FreshIgnoresExpired(f.memory, t.follower.memory, s.history, f.lastApplied, s.seen, s.now);
      FreshIgnoresExpired(f.tables, t.follower.tables, s.history, f.lastApplied, s.seen, s.now);
    case _ =>
      FreshWeakens(f.memory, s.history, f.lastApplied, s.seen, s.now, t.history, f.lastApplied, s.seen, t.now);
      FreshWeakens(f.tables, s.history, f.lastApplied, s.seen, s.now, t.history, f.lastApplied, s.seen, t.now);
  }

  lemma {:induction false} InvHolds(run: Run, k: nat)
    requires ValidRun(run) && NoStaleHit(run) && RowsAreCurrent(run) && k < |run.states|
    ensures InvUpTo(run, k) && HistoryGrows(run, k)
  {
    LogHolds(run, k);
    MemoryHolds(run, k);
    if k == 0 {
      FollowerStarts(run.states[0]);
    } else {
      InvHolds(run, k - 1);
      HistoryGrowsStep(run, k - 1);
      FollowerStep(run, k - 1);
    }
  }

  lemma FollowerStarts(s: System)
    requires Initial(s)
    ensures FollowerInv(s)
  {
    forall slot: Slot
      ensures HasVersion(map[], [], slot, 0, 0, s.now)
    {
      assert Reflects(map[], [], slot, 0, s.now);
    }
  }

  lemma FollowerStep(run: Run, k: nat)
    requires ValidRun(run) && NoStaleHit(run) && RowsAreCurrent(run) && k < |run.steps|
    requires InvUpTo(run, k) && HistoryGrows(run, k)
    ensures FollowerInv(run.states[k + 1])
  {
    match run.steps[k]
    case Deliver(_, _, _, _, _) => DeliverKeepsInv(run, k);
    case Install(_, _, _, _) => InstallKeepsInv(run, k);
    case _ =>
      assert Inv(run.states[k]);
      LocalStepKeepsFollower(run, k);
  }

  /**
   Convergence of fuzzy snapshots, replay, retention, retries and restarts, in every run: as soon as the
   follower has persisted every event up to the newest version of the state it has met, both its memory
   and its tables show exactly the fold of the history up to there.
   */
  lemma ReplicaConverges(run: Run, k: nat)
    requires ValidRun(run) && NoStaleHit(run) && RowsAreCurrent(run) && k < |run.states|
    requires run.states[k].follower.lastApplied >= run.states[k].seen
    ensures run.states[k].follower.lastApplied <= |run.states[k].history|
    ensures var s := run.states[k];
            var target := Fold(s.history[..s.follower.lastApplied]);
            SameLive(s.follower.memory, target, s.now) && SameLive(s.follower.tables, target, s.now)
  {
    InvHolds(run, k);
    var s := run.states[k];
    assert Inv(s);
    FreshAtOneVersion(s.follower.memory, s.history, s.seen, s.now);
    FreshAtOneVersion(s.follower.tables, s.history, s.seen, s.now);
  }

  /**
   A follower that has persisted the whole history shows what the primary shows, but for slots whose last write
   has been logged and still waits to reach the primary's memory.
   */
  lemma CaughtUpReplicaAgreesWithPrimary(run: Run, k: nat, slot: Slot)
    requires ValidRun(run) && NoStaleHit(run) && RowsAreCurrent(run) && k < |run.states|
    requires run.states[k].follower.lastApplied == |run.states[k].history| && slot !in run.states[k].waiting
    ensures var s := run.states[k];
            LiveRow(s.follower.memory, slot, s.now) == LiveRow(s.memory, slot, s.now) == LiveRow(s.follower.tables, slot, s.now)
  {
    InvHolds(run, k);
    var s := run.states[k];
    assert Inv(s) && s.history[..|s.history|] == s.history;
    ReplicaConverges(run, k);
    assert Reflects(s.memory, s.history, slot, Shown(s, slot), s.now);
  }

  /** Since its last snapshot a follower has replayed every event whose transaction once failed. */
  predicate Retried(run: Run, at: nat, k: nat)
    requires at < k < |run.states| == |run.steps| + 1
  {
    forall j | at < j < k && run.steps[j].Deliver? && !run.steps[j].persistOk ::
      run.states[j].follower.lastApplied < run.states[k].follower.lastApplied
  }

  /**
   The install-then-replay form: a snapshot whose rows were all read by the time the history had `m`
   writes is installed; later, whatever else happened but another snapshot, every event up to some
   `n >= m` has been persisted, and so has every event whose transaction once failed.  Then the follower
   shows the fold of the first `n` writes.
   */
  lemma FuzzySnapshotThenReplay(run: Run, at: nat, k: nat)
    requires ValidRun(run) && NoStaleHit(run) && RowsAreCurrent(run) && at < k < |run.states|
    requires run.steps[at].Install? && run.steps[at].persistOk && run.steps[at].readBy <= at
    requires (forall j | at < j < k :: !run.steps[j].Install?) && Retried(run, at, k)
    requires |run.states[run.steps[at].readBy].history| <= run.states[k].follower.lastApplied
    ensures run.states[k].follower.lastApplied <= |run.states[k].history|
    ensures var s := run.states[k];
            var target := Fold(s.history[..s.follower.lastApplied]);
            SameLive(s.follower.memory, target, s.now) && SameLive(s.follower.tables, target, s.now)
  {
    SeenDuringReplay(run, at, k, k);
    ReplicaConverges(run, k);
  }

  lemma {:induction false} AppliedGrows(run: Run, i: nat, k: nat)
    requires ValidRun(run) && i <= k < |run.states|
    requires forall j | i <= j < k :: !run.steps[j].Install?
    ensures run.states[i].follower.lastApplied <= run.states[k].follower.lastApplied
    decreases k
  {
    if i < k {
      AppliedGrows(run, i, k - 1);
      assert ValidStep(run, k - 1);
    }
  }

  lemma {:induction false} SeenDuringReplay(run: Run, at: nat, i: nat, k: nat)
    requires ValidRun(run) && at < i <= k < |run.states|
    requires run.steps[at].Install? && run.steps[at].persistOk && run.steps[at].readBy <= at
    requires (forall j | at < j < k :: !run.steps[j].Install?) && Retried(run, at, k)
    ensures run.states[i].seen
            <= Max(|run.states[run.steps[at].readBy].history|, run.states[k].follower.lastApplied)
    decreases i
  {
    assert ValidStep(run, i - 1);
    if at + 1 < i {
      SeenDuringReplay(run, at, i - 1, k);
      AppliedGrows(run, i, k);
    }
  }

  // ----- exactly when an event is replayed faithfully

  /**
   For a follower in step with the history, replaying the next event keeps it in step if and only if
   that event is not an expired upsert over a row that is still live.
   */
  lemma ReplayIsFaithfulIff(t: Table, history: seq<Payload>, n: nat, now: nat)
    requires n < |history| && SameLive(t, Fold(history[..n]), now)
    ensures SameLive(Replay(t, history[n], now), Fold(history[..n + 1]), now) <==> !StaleHit(t, history[n], now)
  {
    var p, u, after := history[n], Replay(t, history[n], now), Fold(history[..n + 1]);
    FoldNext(history, n);
    if StaleHit(t, p, now) {
      assert LiveRow(u, p.slot, now) != LiveRow(after, p.slot, now);
    } else {
      SameLiveReplayed(t, u, history, n, now);
    }
  }

  /** In memory an expired affinity upsert removes the older row, so only contacts need that condition. */
  lemma MemoryReplayIsFaithfulIff(t: Table, history: seq<Payload>, n: nat, now: nat)
    requires n < |history| && SameLive(t, Fold(history[..n]), now)
    ensures SameLive(ReplayInMemory(t, history[n], now), Fold(history[..n + 1]), now)
            <==> (history[n].slot.Affinity? || !StaleHit(t, history[n], now))
  {
    var p, u, after := history[n], ReplayInMemory(t, history[n], now), Fold(history[..n + 1]);
    FoldNext(history, n);
    if p.slot.Contact? && StaleHit(t, p, now) {
      assert LiveRow(u, p.slot, now) != LiveRow(after, p.slot, now);
    } else {
      SameLiveReplayed(t, u, history, n, now);
    }
  }

  /** The failing case is real: a shortened registration replayed late leaves the longer one in place. */
  lemma LateReplayKeepsOldRegistration()
    ensures var alice := Contact("sip:alice@example.com");
            var history := [Put(alice, Row("sip:old", 900)), Put(alice, Row("sip:new", 200))];
            var t := Replay(Replay(map[], history[0], 100), history[1], 300);
            LiveRow(t, alice, 300) == Some(Row("sip:old", 900)) && LiveRow(Fold(history), alice, 300) == None
  {
    var alice := Contact("sip:alice@example.com");
    var history := [Put(alice, Row("sip:old", 900)), Put(alice, Row("sip:new", 200))];
    FoldNext(history, 0);
    FoldNext(history, 1);
    assert history[..2] == history && history[..0] == [];
  }

  /**
   A snapshot whose number was read when write `p` had been logged, and whose row of `p` before that write reached
   memory, is exact if and only if the write changes no live row.
   */
  lemma SnapshotInBetweenIsExactIff(memory: Table, tables: Table, history: seq<Payload>, p: Payload, f: Follower, now: nat)
    requires SameLive(memory, Fold(history), now)
    requires tables == Installed(f, Snapshot(|history| + 1, Unexpired(memory, now)), now, true).tables
    ensures SameLive(tables, Fold(history + [p]), now)
            <==> LiveRow(Fold(history), p.slot, now) == LiveRow(Write(map[], p), p.slot, now)
  {
    var longer := history + [p];
    FoldAppend(history, p);
    forall slot: Slot
      ensures LiveRow(tables, slot, now) == LiveRow(Fold(history), slot, now)
      ensures slot != p.slot ==> LiveRow(Fold(longer), slot, now) == LiveRow(Fold(history), slot, now)
    {
      assert LiveRow(memory, slot, now) == LiveRow(Fold(history), slot, now);
    }
    assert LiveRow(Fold(longer), p.slot, now) == LiveRow(Write(map[], p), p.slot, now);
    assert SameLive(tables, Fold(longer), now) ==> LiveRow(tables, p.slot, now) == LiveRow(Fold(longer), p.slot, now);
  }

  // ----- snapshots whose number is read while no required write waits

  lemma {:induction false} HistoryAlwaysGrows(run: Run, k: nat)
    requires ValidRun(run) && k < |run.states|
    ensures HistoryGrows(run, k)
  {
    if k > 0 {
      HistoryAlwaysGrows(run, k - 1);
      HistoryGrowsStep(run, k - 1);
    }
  }

  lemma {:induction false} AppliedInHistory(run: Run, k: nat)
    requires ValidRun(run) && k < |run.states|
    ensures run.states[k].follower.lastApplied <= |run.states[k].history|
  {
    if k > 0 {
      AppliedInHistory(run, k - 1);
      HistoryAlwaysGrows(run, k);
      assert ValidStep(run, k - 1);
      match run.steps[k - 1]
      case Deliver(servedAt, after, limit, index, _) =>
        var served := run.states[servedAt];
        LogHolds(run, servedAt);
        if index < |EventsAfter(served.store.log, after, limit).events| {
          ServedEventsAreHistory(served.store.log, served.history, served.store.appended, after, limit, index);
        }
      case Install(seqAt, _, _, _) => LogHolds(run, seqAt);
      case _ =>
    }
  }

  /** A write that waits and was logged by state `first` has waited since then. */
  lemma {:induction false} WaitedSince(run: Run, first: nat, i: nat, slot: Slot)
    requires ValidRun(run) && first <= i < |run.states|
    requires Behind(run.states[i], slot, |run.states[first].history|)
    ensures slot in run.states[first].waiting
    decreases i
  {
    if first < i {
      HistoryAlwaysGrows(run, i);
      assert ValidStep(run, i - 1);
      assert run.states[first].history <= run.states[i - 1].history;
      WaitedSince(run, first, i - 1, slot);
    }
  }

  /** If no required write waits whenever a snapshot's number is read, no row is ever read behind. */
  lemma NumbersReadAtRestAreCurrent(run: Run)
    requires ValidRun(run)
    requires forall k | 0 <= k < |run.steps| && run.steps[k].Install? && run.steps[k].seqAt <= k ::
               run.states[run.steps[k].seqAt].waiting == map[]
    ensures RowsAreCurrent(run)
  {
    forall k, slot: Slot | 0 <= k < |run.steps| && run.steps[k].Install? && run.steps[k].readBy <= k
      ensures CurrentRow(run, k, slot)
    {
      assert ValidStep(run, k);
      var step, n := run.steps[k], run.states[k + 1].follower.lastApplied;
      assert RowReadWithin(run, step.snapshot, slot, step.seqAt, step.readBy);
      var i: nat :| step.seqAt <= i <= step.readBy && RowReadAt(run, step.snapshot, slot, i);
      LogHolds(run, step.seqAt);
      AppliedInHistory(run, step.seqAt);
      if Behind(run.states[i], slot, n) {
        WaitedSince(run, step.seqAt, i, slot);
      }
      assert ReadCurrent(run, step, slot, n, i);
    }
  }

  /** In particular in a run without required writes. */
  lemma BackgroundRunsAreCurrent(run: Run)
    requires ValidRun(run) && forall k | 0 <= k < |run.steps| :: !run.steps[k].LogRequired?
    ensures RowsAreCurrent(run)
  {
    forall k | 0 <= k < |run.states|
      ensures run.states[k].waiting == map[]
    {
      NothingWaits(run, k);
    }
    NumbersReadAtRestAreCurrent(run);
  }

  lemma {:induction false} NothingWaits(run: Run, k: nat)
    requires ValidRun(run) && k < |run.states| && forall j | 0 <= j < |run.steps| :: !run.steps[j].LogRequired?
    ensures run.states[k].waiting == map[]
  {
    if k > 0 {
      NothingWaits(run, k - 1);
      assert ValidStep(run, k - 1);
    }
  }
}
