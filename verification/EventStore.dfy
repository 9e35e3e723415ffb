/**
 The persisted side of a node: the contact and affinity tables, the replication log with its
 auto-incremented sequence numbers, and the last sequence number applied from a peer.

 Contacts and affinity bindings are rows of one table here, told apart by the kind of their slot.
 Times are epoch milliseconds.
 */
module EventStore {
  import opened Wrappers

  datatype Slot = Contact(aor: string) | Affinity(key: string)

  datatype Row = Row(target: string, expiresAt: nat)

  type Table = map<Slot, Row>

  /** Register/unregister a contact, upsert/remove an affinity binding. */
  datatype Payload = Put(slot: Slot, row: Row) | Delete(slot: Slot)

  datatype Record = Record(seqNo: nat, payload: Payload, createdAt: nat)

  datatype Response = Response(baseSeq: nat, latestSeq: nat, snapshotRequired: bool, events: seq<Record>)

  datatype Snapshot = Snapshot(lastSeq: nat, rows: Table)

  datatype Store = Store(tables: Table, log: seq<Record>, appended: nat, lastApplied: nat)

  // ----- tables

  function Write(t: Table, p: Payload): Table {
    match p
    case Put(slot, row) => t[slot := row]
    case Delete(slot) => t - {slot}
  }

  /** The tables after a history of writes: the last write to a slot wins. */
  function Fold(history: seq<Payload>): Table {
    if history == [] then map[]
    else Write(Fold(history[..|history| - 1]), history[|history| - 1])
  }

  /** `history[at]` is the last write of the slot. */
  ghost predicate Last(history: seq<Payload>, slot: Slot, at: nat) {
    && at < |history| && history[at].slot == slot
    && forall i | at < i < |history| :: history[i].slot != slot
  }

  /** The table has the row that a write stores, or none if the write deletes it. */
  predicate Stored(t: Table, p: Payload) {
    match p
    case Put(slot, row) => slot in t && t[slot] == row
    case Delete(slot) => slot !in t
  }

  /** The fold of a history is its last write of each slot, and nothing for other slots. */
  lemma {:induction false} FoldIsLastWrite(history: seq<Payload>, slot: Slot)
    ensures (forall i | 0 <= i < |history| :: history[i].slot != slot) ==> slot !in Fold(history)
    ensures forall at: nat | Last(history, slot, at) :: Stored(Fold(history), history[at])
  {
    if history != [] {
      var earlier := history[..|history| - 1];
      FoldIsLastWrite(earlier, slot);
      LastAfterWrite(history, Fold(earlier), slot);
    }
  }

  /** If a table stores the last write of a slot, then so does the table after one more write. */
  lemma LastAfterWrite(history: seq<Payload>, t: Table, slot: Slot)
    requires history != []
    requires forall at: nat | Last(history[..|history| - 1], slot, at) :: Stored(t, history[at])
    ensures forall at: nat | Last(history, slot, at) :: Stored(Write(t, history[|history| - 1]), history[at])
  {
    var n := |history| - 1;
    forall at: nat | Last(history, slot, at)
      ensures Stored(Write(t, history[n]), history[at])
    {
      if at < n {
        assert history[n].slot != slot;
        assert Last(history[..n], slot, at);
      }
    }
  }

  /** The row a reader sees at a given time. */
  function LiveRow(t: Table, slot: Slot, now: nat): Option<Row> {
    if slot in t && t[slot].expiresAt > now then Some(t[slot]) else None
  }

  function Unexpired(t: Table, now: nat): Table {
    map slot | slot in t && t[slot].expiresAt > now :: t[slot]
  }

  /** Replaying an event into the tables: an expired row is skipped and whatever was there stays. */
  function Replay(t: Table, p: Payload, now: nat): Table {
    if p.Put? && p.row.expiresAt <= now then t else Write(t, p)
  }

  // ----- log

  function LatestSeq(log: seq<Record>): nat {
    if log == [] then 0 else log[|log| - 1].seqNo
  }

  function Clamp(limit: nat): (r: nat)
    ensures 1 <= r <= 10_000
    ensures 1 <= limit <= 10_000 ==> r == limit
    ensures limit < 1 ==> r == 1
    ensures limit > 10_000 ==> r == 10_000
  {
    if limit < 1 then 1 else if limit > 10_000 then 10_000 else limit
  }

  /** The rows of the log numbered above `after`. */
  function RowsAbove(log: seq<Record>, after: nat): seq<Record> {
    if log == [] then []
    else if log[0].seqNo > after then [log[0]] + RowsAbove(log[1..], after)
    else RowsAbove(log[1..], after)
  }

  function First(rows: seq<Record>, limit: nat): seq<Record> {
    if |rows| <= limit then rows else rows[..limit]
  }

  function EventsAfter(log: seq<Record>, after: nat, limit: nat): Response {
    if log != [] && after + 1 < log[0].seqNo then
      Response(if log[0].seqNo == 0 then 0 else log[0].seqNo - 1, LatestSeq(log), true, [])
    else
      Response(after, LatestSeq(log), false, First(RowsAbove(log, after), Clamp(limit)))
  }

  function RetainAfter(now: nat, retentionSeconds: nat): nat {
    if now < retentionSeconds * 1000 then 0 else now - retentionSeconds * 1000
  }

  /** The rows that survive retention: those created after `horizon`. */
  function CreatedAfter(log: seq<Record>, horizon: nat): seq<Record> {
    if log == [] then []
    else if log[0].createdAt > horizon then [log[0]] + CreatedAfter(log[1..], horizon)
    else CreatedAfter(log[1..], horizon)
  }

  lemma {:induction false} CreatedAfterMembers(log: seq<Record>, horizon: nat)
    ensures forall r :: r in CreatedAfter(log, horizon) <==> r in log && r.createdAt > horizon
  {
    if log != [] {
      CreatedAfterMembers(log[1..], horizon);
      assert log == [log[0]] + log[1..];
    }
  }

  // ----- the store as a value

  function Appended(s: Store, p: Payload, now: nat): Store {
    Store(Write(s.tables, p), s.log + [Record(s.appended + 1, p, now)], s.appended + 1, s.lastApplied)
  }

  function AppendedAll(s: Store, writes: seq<Payload>, times: seq<nat>): Store
    requires |writes| == |times|
  {
    if writes == [] then s
    else Appended(AppendedAll(s, writes[..|writes| - 1], times[..|times| - 1]), writes[|writes| - 1], times[|times| - 1])
  }

  /** The log, the counters and the tables after a batch, write by write. */
  lemma {:induction false} BatchIsLogged(s: Store, writes: seq<Payload>, times: seq<nat>)
    requires |writes| == |times|
    ensures var t := AppendedAll(s, writes, times);
            && |t.log| == |s.log| + |writes| && t.log[..|s.log|] == s.log
            && t.appended == s.appended + |writes| && t.lastApplied == s.lastApplied
            && forall i | 0 <= i < |writes| :: t.log[|s.log| + i] == Record(s.appended + i + 1, writes[i], times[i])
  {
    if writes != [] {
      var n := |writes| - 1;
      BatchIsLogged(s, writes[..n], times[..n]);
      var before, after := AppendedAll(s, writes[..n], times[..n]), AppendedAll(s, writes, times);
      assert after.log == before.log + [Record(before.appended + 1, writes[n], times[n])];
      assert after.log[..|s.log|] == before.log[..|s.log|];
    }
  }

  lemma {:induction false} BatchIsStored(s: Store, writes: seq<Payload>, times: seq<nat>, slot: Slot)
    requires |writes| == |times|
    ensures var t := AppendedAll(s, writes, times).tables;
            && (forall at: nat | Last(writes, slot, at) :: Stored(t, writes[at]))
            && ((forall i | 0 <= i < |writes| :: writes[i].slot != slot) ==>
                  (slot in t <==> slot in s.tables) && (slot in t ==> t[slot] == s.tables[slot]))
  {
    if writes != [] {
      var n := |writes| - 1;
      var earlier := writes[..n];
      BatchIsStored(s, earlier, times[..n], slot);
      LastAfterWrite(writes, AppendedAll(s, earlier, times[..n]).tables, slot);
    }
  }

  /**
   Every write has its record at the end of the log, in order; a slot has the row of its last write, or none if
   that was a deletion, and a slot that no write names is as before.
   */
  ghost predicate BatchTookEffect(before: Store, after: Store, writes: seq<Payload>, times: seq<nat>)
    requires |writes| == |times|
  {
    && |after.log| == |before.log| + |writes| && after.log[..|before.log|] == before.log
    && (forall i | 0 <= i < |writes| ::
          after.log[|before.log| + i] == Record(before.appended + i + 1, writes[i], times[i]))
    && after.appended == before.appended + |writes| && after.lastApplied == before.lastApplied
    && (forall slot, at: nat | Last(writes, slot, at) ::
          match writes[at]
          case Put(_, row) => slot in after.tables && after.tables[slot] == row
          case Delete(_) => slot !in after.tables)
    && forall slot: Slot | forall i | 0 <= i < |writes| :: writes[i].slot != slot ::
         && (slot in after.tables <==> slot in before.tables)
         && (slot in after.tables ==> after.tables[slot] == before.tables[slot])
  }

  lemma BatchTakesEffect(s: Store, writes: seq<Payload>, times: seq<nat>)
    requires |writes| == |times|
    ensures BatchTookEffect(s, AppendedAll(s, writes, times), writes, times)
  {
    BatchIsLogged(s, writes, times);
    var t := AppendedAll(s, writes, times).tables;
    forall slot: Slot
      ensures forall at: nat | Last(writes, slot, at) :: Stored(t, writes[at])
      ensures (forall i | 0 <= i < |writes| :: writes[i].slot != slot) ==>
                (slot in t <==> slot in s.tables) && (slot in t ==> t[slot] == s.tables[slot])
    {
      BatchIsStored(s, writes, times, slot);
    }
  }

  function CleanedUp(s: Store, now: nat, retentionSeconds: nat): Store {
    s.(tables := Unexpired(s.tables, now), log := CreatedAfter(s.log, RetainAfter(now, retentionSeconds)))
  }

  class Persistence {
    var tables: Table
    var log: seq<Record>
    var appended: nat
    var lastApplied: nat

    function View(): Store
      reads this
    {
      Store(tables, log, appended, lastApplied)
    }

    constructor ()
      ensures View() == Store(map[], [], 0, 0)
    {
      tables, log, appended, lastApplied := map[], [], 0, 0;
    }

    method AppendEvent(payload: Payload, now: nat) returns (seqNo: nat)
      modifies this`log, this`appended
      ensures log == old(log) + [Record(seqNo, payload, now)]
      ensures appended == seqNo == old(appended) + 1
    {
      appended := appended + 1;
      seqNo := appended;
      log := log + [Record(seqNo, payload, now)];
    }

    /** One transaction: every write is appended to the log and applied to its table, in order. */
    method ApplyBackgroundWrites(writes: seq<Payload>, times: seq<nat>)
      requires |writes| == |times|
      modifies this
      ensures View() == AppendedAll(old(View()), writes, times)
      ensures BatchTookEffect(old(View()), View(), writes, times)
    {
      var i := 0;
      while i < |writes|
        invariant 0 <= i <= |writes|
        invariant View() == AppendedAll(old(View()), writes[..i], times[..i])
      {
        assert writes[..i + 1][..i] == writes[..i] && times[..i + 1][..i] == times[..i];
        var seqNo := AppendEvent(writes[i], times[i]);
        match writes[i] {
          case Put(slot, row) => tables := tables[slot := row];
          case Delete(slot) => tables := tables - {slot};
        }
        i := i + 1;
      }
      assert writes[..i] == writes && times[..i] == times;
      BatchTakesEffect(old(View()), writes, times);
    }

    method CleanupExpired(now: nat, retentionSeconds: nat)
      modifies this`tables, this`log
      ensures View() == CleanedUp(old(View()), now, retentionSeconds)
      ensures forall slot :: slot in tables <==> slot in old(tables) && old(tables)[slot].expiresAt > now
      ensures forall slot | slot in tables :: tables[slot] == old(tables)[slot]
      ensures forall r :: r in log <==> r in old(log) && now < r.createdAt + retentionSeconds * 1000 && r.createdAt > 0
    {
      CreatedAfterMembers(log, RetainAfter(now, retentionSeconds));
      tables := Unexpired(tables, now);
      log := CreatedAfter(log, RetainAfter(now, retentionSeconds));
    }

    method ApplyEvent(event: Record, now: nat)
      modifies this`tables, this`lastApplied
      ensures tables == Replay(old(tables), event.payload, now) && lastApplied == event.seqNo
      ensures match event.payload
              case Put(slot, row) => tables == if row.expiresAt > now then old(tables)[slot := row] else old(tables)
              case Delete(slot) => tables == old(tables) - {slot}
    {
      match event.payload {
        case Put(slot, row) =>
          if row.expiresAt > now {
            tables := tables[slot := row];
          }
        case Delete(slot) => tables := tables - {slot};
      }
      lastApplied := event.seqNo;
    }

    method InstallSnapshot(snapshot: Snapshot, now: nat)
      modifies this`tables, this`lastApplied
      ensures tables == Unexpired(snapshot.rows, now) && lastApplied == snapshot.lastSeq
      ensures forall slot :: slot in tables <==> slot in snapshot.rows && snapshot.rows[slot].expiresAt > now
      ensures forall slot | slot in tables :: tables[slot] == snapshot.rows[slot]
    {
      tables := Unexpired(snapshot.rows, now);
      lastApplied := snapshot.lastSeq;
    }
  }

  // ---------------------------------------------------------------------------------------------
  // The log is a contiguous, dated window of the history
  // ---------------------------------------------------------------------------------------------

  ghost predicate Contiguous(log: seq<Record>, history: seq<Payload>, appended: nat) {
    && |log| <= appended <= |history|
    && forall i | 0 <= i < |log| ::
         log[i].seqNo == appended - |log| + i + 1 && log[i].payload == history[log[i].seqNo - 1]
  }

  ghost predicate Dated(log: seq<Record>, now: nat) {
    && (forall i | 0 <= i < |log| :: log[i].createdAt <= now)
    && (forall i, j | 0 <= i < j < |log| :: log[i].createdAt <= log[j].createdAt)
  }

  lemma {:induction false} NothingDropped(log: seq<Record>, horizon: nat)
    requires forall i | 0 <= i < |log| :: log[i].createdAt > horizon
    ensures CreatedAfter(log, horizon) == log
  {
    if log != [] {
      NothingDropped(log[1..], horizon);
    }
  }

  /** Retention only ever drops a prefix of a dated log. */
  lemma {:induction false} RetentionDropsPrefix(log: seq<Record>, horizon: nat, now: nat) returns (k: nat)
    requires Dated(log, now)
    ensures k <= |log| && CreatedAfter(log, horizon) == log[k..]
    ensures forall i | 0 <= i < k :: log[i].createdAt <= horizon
    ensures k < |log| ==> log[k].createdAt > horizon
  {
    if log == [] || log[0].createdAt > horizon {
      NothingDropped(log, horizon);
      k := 0;
    } else {
      var tail := log[1..];
      var rest := RetentionDropsPrefix(tail, horizon, now);
      k := rest + 1;
      assert tail[rest..] == log[k..];
    }
  }

  lemma {:induction false} RowsAboveIsSuffix(log: seq<Record>, history: seq<Payload>, appended: nat, after: nat)
    requires Contiguous(log, history, appended)
    ensures after >= appended ==> RowsAbove(log, after) == []
    ensures after < appended ==>
              RowsAbove(log, after) == if after <= appended - |log| then log else log[after - (appended - |log|)..]
  {
    if log != [] {
      RowsAboveIsSuffix(log[1..], history, appended, after);
    }
  }

  /** The served events are consecutive rows of the log. */
  lemma ServedFromLog(log: seq<Record>, history: seq<Payload>, appended: nat, after: nat, limit: nat) returns (cut: nat)
    requires Contiguous(log, history, appended)
    ensures var events := EventsAfter(log, after, limit).events;
            && cut + |events| <= |log| && events == log[cut..cut + |events|]
            && (log != [] && appended - |log| <= after < appended ==>
                  |events| == if appended - after < Clamp(limit) then appended - after else Clamp(limit))
            && (after >= appended || after < appended - |log| ==> events == [])
            && (events != [] && appended - |log| <= after ==> cut == after - (appended - |log|))
  {
    cut := 0;
    if log != [] && appended - |log| <= after {
      cut := FirstRowsAbove(log, history, appended, after, Clamp(limit));
    }
  }

  lemma FirstRowsAbove(log: seq<Record>, history: seq<Payload>, appended: nat, after: nat, limit: nat) returns (cut: nat)
    requires Contiguous(log, history, appended) && appended - |log| <= after
    ensures var rows := First(RowsAbove(log, after), limit);
            && cut + |rows| <= |log| && rows == log[cut..cut + |rows|]
            && (after < appended ==> |rows| == if appended - after < limit then appended - after else limit)
            && (after >= appended ==> rows == [])
            && (rows != [] ==> cut == after - (appended - |log|))
  {
    RowsAboveIsSuffix(log, history, appended, after);
    cut := if after >= appended then |log| else after - (appended - |log|);
  }

  /**
   Serving the log: with a non-empty contiguous log, the response demands a snapshot exactly when the
   next event is gone, and otherwise holds exactly the next events of the history, as many as there
   are up to the clamped limit.
   */
  lemma ServesExactlyTheNextEvents(log: seq<Record>, history: seq<Payload>, appended: nat, after: nat, limit: nat)
    requires Contiguous(log, history, appended) && log != []
    ensures var r := EventsAfter(log, after, limit);
            && (r.snapshotRequired <==> after < appended - |log|)
            && (r.snapshotRequired ==> r.events == [] && r.baseSeq == appended - |log|)
            && r.latestSeq == appended && (!r.snapshotRequired ==> r.baseSeq == after)
            && (!r.snapshotRequired && after < appended ==>
                  |r.events| == if appended - after < Clamp(limit) then appended - after else Clamp(limit))
            && (!r.snapshotRequired && after >= appended ==> r.events == [])
            && forall i | 0 <= i < |r.events| ::
                 r.events[i].seqNo == after + i + 1 <= |history| && r.events[i].payload == history[after + i]
  {
    var cut := ServedFromLog(log, history, appended, after, limit);
  }

  /**
   A follower that is behind is told so, by events or by a demand for a snapshot, if and only if the
   log is non-empty: a log emptied by retention answers "nothing new".
   */
  lemma BehindFollowerIsToldIff(log: seq<Record>, history: seq<Payload>, appended: nat, after: nat, limit: nat)
    requires Contiguous(log, history, appended)
    ensures var r := EventsAfter(log, after, limit);
            && (after < appended ==> ((r.snapshotRequired || r.events != []) <==> log != []))
            && (log == [] ==> r == Response(after, 0, false, []))
  {
    RowsAboveIsSuffix(log, history, appended, after);
  }

  /** Whatever a response contains, each event is the history's event of that number. */
  lemma ServedEventsAreHistory(log: seq<Record>, history: seq<Payload>, appended: nat, after: nat, limit: nat, i: nat)
    requires Contiguous(log, history, appended)
    requires i < |EventsAfter(log, after, limit).events|
    ensures var e := EventsAfter(log, after, limit).events[i];
            1 <= e.seqNo <= appended && e.payload == history[e.seqNo - 1]
  {
    var cut := ServedFromLog(log, history, appended, after, limit);
    assert EventsAfter(log, after, limit).events[i] == log[cut + i];
  }

  /** Appending and retention keep the log a contiguous, dated window of the history. */
  lemma AppendKeepsLog(s: Store, history: seq<Payload>, now: nat)
    requires Contiguous(s.log, history, s.appended) && Dated(s.log, now) && s.appended < |history|
    ensures var t := Appended(s, history[s.appended], now);
            Contiguous(t.log, history, t.appended) && Dated(t.log, now)
  {
  }

  lemma CleanupKeepsLog(s: Store, history: seq<Payload>, now: nat, retentionSeconds: nat)
    requires Contiguous(s.log, history, s.appended) && Dated(s.log, now)
    ensures var t := CleanedUp(s, now, retentionSeconds);
            Contiguous(t.log, history, t.appended) && Dated(t.log, now) && |t.log| <= |s.log|
  {
    var k := RetentionDropsPrefix(s.log, RetainAfter(now, retentionSeconds), now);
    SuffixIsWindow(s.log, history, s.appended, now, k);
  }

  lemma SuffixIsWindow(log: seq<Record>, history: seq<Payload>, appended: nat, now: nat, k: nat)
    requires Contiguous(log, history, appended) && Dated(log, now) && k <= |log|
    ensures Contiguous(log[k..], history, appended) && Dated(log[k..], now)
  {
  }
}
