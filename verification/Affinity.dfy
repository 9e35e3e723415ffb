/**
 The affinity table: bindings from a routing key to a target, spread over shards by a hash of the key, with
 an expiry each and one length counter beside the shards.  Times are milliseconds on one clock.
 */
module Affinity {
  import opened Wrappers
  import opened Arithmetic

  const SHARDS: nat := 64

  /** Remaining lifetimes are cut to 64 bits when a binding is installed. */
  const U64: nat := 0x1_0000_0000_0000_0000

  type Key = string

  type Hash = Key -> nat

  datatype Binding = Binding(target: string, expiresAt: nat)

  datatype BindingSnapshot = BindingSnapshot(key: Key, target: string, expiresAt: nat)

  type Table = map<Key, Binding>

  function Index(hash: Hash, n: nat, key: Key): (i: nat)
    requires n > 0
    ensures i < n
  {
    hash(key) % n
  }

  /** Each key lives only in its own shard. */
  predicate Placed(hash: Hash, shards: seq<Table>) {
    && |shards| > 0
    && forall i, key | 0 <= i < |shards| && key in shards[i] :: Index(hash, |shards|, key) == i
  }

  /** The shards are the one table `m`, spread by the hash. */
  ghost predicate Holds(hash: Hash, shards: seq<Table>, m: Table) {
    && Placed(hash, shards)
    && forall key :: HoldsAt(shards[Index(hash, |shards|, key)], m, key)
  }

  ghost predicate HoldsAt(shard: Table, m: Table, key: Key) {
    (key in m <==> key in shard) && (key in m ==> m[key] == shard[key])
  }

  /** The part of the table that the first `k` shards hold. */
  function Part(hash: Hash, n: nat, m: Table, k: nat): Table
    requires n > 0
  {
    map key | key in m && Index(hash, n, key) < k :: m[key]
  }

  /** The sizes of the first `k` shards. */
  function Total(shards: seq<Table>, k: nat): nat
    requires k <= |shards|
  {
    if k == 0 then 0 else Total(shards, k - 1) + |shards[k - 1]|
  }

  function Live(m: Table, now: nat): Table {
    map key | key in m && m[key].expiresAt > now :: m[key]
  }

  /** What a lookup in one expiring table answers. */
  function Found(m: Table, key: Key, now: nat): Option<string> {
    if key in m && m[key].expiresAt > now then Some(m[key].target) else None
  }

  function FirstFound(m: Table, keys: seq<Key>, now: nat): (r: Option<string>)
    ensures r.None? <==> forall key | key in keys :: Found(m, key, now) == None
  {
    if keys == [] then None
    else if Found(m, keys[0], now).Some? then Found(m, keys[0], now)
    else
      assert keys == [keys[0]] + keys[1..];
      FirstFound(m, keys[1..], now)
  }

  /** The table without the expired bindings of the swept shards. */
  function Swept(hash: Hash, n: nat, m: Table, indices: set<nat>, now: nat): Table
    requires n > 0
  {
    map key | key in m && (m[key].expiresAt > now || Index(hash, n, key) !in indices) :: m[key]
  }

  lemma FirstFoundFrom(m: Table, keys: seq<Key>, j: nat, now: nat)
    requires j < |keys|
    ensures FirstFound(m, keys[j..], now)
            == if Found(m, keys[j], now).Some? then Found(m, keys[j], now) else FirstFound(m, keys[j + 1..], now)
  {
    assert keys[j..][1..] == keys[j + 1..];
  }

  /** The table without the expired bindings of the first `limit` shards. */
  function SweptBelow(hash: Hash, n: nat, m: Table, limit: nat, now: nat): Table
    requires n > 0
  {
    map key | key in m && (m[key].expiresAt > now || Index(hash, n, key) >= limit) :: m[key]
  }

  /** The shards of some keys. */
  function Indices(hash: Hash, n: nat, keys: seq<Key>): set<nat>
    requires n > 0
  {
    set key | key in keys :: Index(hash, n, key)
  }

  lemma IndicesNext(hash: Hash, n: nat, keys: seq<Key>, j: nat)
    requires n > 0 && j < |keys|
    ensures Indices(hash, n, keys[..j + 1]) == Indices(hash, n, keys[..j]) + {Index(hash, n, keys[j])}
  {
    assert keys[..j + 1] == keys[..j] + [keys[j]];
  }

  /** Sweeping is not seen by a lookup at that time. */
  lemma FoundInSwept(hash: Hash, n: nat, m: Table, indices: set<nat>, key: Key, now: nat)
    requires n > 0
    ensures Found(Swept(hash, n, m, indices, now), key, now) == Found(m, key, now)
  {
  }

  // ----- the flat view of a sharded table

  /** Sharding loses nothing: only one table is spread over given shards. */
  lemma OneTable(hash: Hash, shards: seq<Table>, m: Table, other: Table)
    requires Holds(hash, shards, m) && Holds(hash, shards, other)
    ensures m == other
  {
    forall key
      ensures key in m <==> key in other
      ensures key in m ==> m[key] == other[key]
    {
      var shard := shards[Index(hash, |shards|, key)];
      assert HoldsAt(shard, m, key) && HoldsAt(shard, other, key);
    }
  }

  lemma {:induction false} TotalOfUpdate(shards: seq<Table>, i: nat, shard: Table, k: nat)
    requires i < |shards| && k <= |shards|
    ensures Total(shards[i := shard], k) == Total(shards, k) + (if i < k then |shard| - |shards[i]| else 0)
  {
    if k > 0 {
      TotalOfUpdate(shards, i, shard, k - 1);
    }
  }

  lemma PartNext(hash: Hash, shards: seq<Table>, m: Table, k: nat)
    requires Holds(hash, shards, m) && k < |shards|
    ensures var n := |shards|;
            && Part(hash, n, m, k).Keys !! shards[k].Keys
            && Part(hash, n, m, k + 1) == Part(hash, n, m, k) + shards[k]
  {
    var n := |shards|;
    var joined := Part(hash, n, m, k) + shards[k];
    forall key
      ensures key in Part(hash, n, m, k + 1) <==> key in joined
      ensures key in joined ==> key in m && joined[key] == m[key]
    {
      assert HoldsAt(shards[Index(hash, n, key)], m, key);
    }
  }

  lemma SizeOfPart(hash: Hash, shards: seq<Table>, m: Table, k: nat, next: nat)
    requires Holds(hash, shards, m) && k < |shards| && next == k + 1
    ensures |Part(hash, |shards|, m, next)| == |Part(hash, |shards|, m, k)| + |shards[k]|
  {
    PartNext(hash, shards, m, k);
    DisjointSize(Part(hash, |shards|, m, k), shards[k]);
  }

  lemma DisjointSize(a: Table, b: Table)
    requires a.Keys !! b.Keys
    ensures |a + b| == |a| + |b|
  {
    assert (a + b).Keys == a.Keys + b.Keys;
    assert |a.Keys + b.Keys| == |a.Keys| + |b.Keys|;
  }

  lemma {:induction false} TotalOfPart(hash: Hash, shards: seq<Table>, m: Table, k: nat)
    requires Holds(hash, shards, m) && k <= |shards|
    ensures |Part(hash, |shards|, m, k)| == Total(shards, k)
  {
    if k == 0 {
      assert Part(hash, |shards|, m, 0) == map[];
    } else {
      TotalOfPart(hash, shards, m, k - 1);
      SizeOfPart(hash, shards, m, k - 1, k);
    }
  }

  /** The shards' sizes add up to the number of bindings. */
  lemma TotalIsSize(hash: Hash, shards: seq<Table>, m: Table)
    requires Holds(hash, shards, m)
    ensures Total(shards, |shards|) == |m|
  {
    TotalOfPart(hash, shards, m, |shards|);
    assert Part(hash, |shards|, m, |shards|) == m;
  }

  lemma {:induction false} EmptyTotal(shards: seq<Table>, k: nat)
    requires k <= |shards| && forall i | 0 <= i < |shards| :: shards[i] == map[]
    ensures Total(shards, k) == 0
  {
    if k > 0 {
      EmptyTotal(shards, k - 1);
    }
  }

  lemma EmptyShards(hash: Hash, shards: seq<Table>)
    requires |shards| > 0 && forall i | 0 <= i < |shards| :: shards[i] == map[]
    ensures Holds(hash, shards, map[]) && Total(shards, |shards|) == 0
  {
    EmptyTotal(shards, |shards|);
  }

  // ----- what one locked section does to the shards

  function Put(hash: Hash, shards: seq<Table>, key: Key, binding: Binding): seq<Table>
    requires |shards| > 0
  {
    var i := Index(hash, |shards|, key);
    shards[i := shards[i][key := binding]]
  }

  function Drop(hash: Hash, shards: seq<Table>, key: Key): seq<Table>
    requires |shards| > 0
  {
    var i := Index(hash, |shards|, key);
    shards[i := shards[i] - {key}]
  }

  function Sweep(shards: seq<Table>, i: nat, now: nat): seq<Table>
    requires i < |shards|
  {
    shards[i := Live(shards[i], now)]
  }

  /** Shard `i` becomes `shard` as the table becomes `after`. */
  ghost predicate Updates(hash: Hash, n: nat, m: Table, i: nat, shard: Table, after: Table)
    requires n > 0
  {
    forall key ::
      if Index(hash, n, key) == i then HoldsAt(shard, after, key) else HoldsAt(m, after, key)
  }

  lemma UpdateHolds(hash: Hash, shards: seq<Table>, m: Table, i: nat, shard: Table, after: Table)
    requires Holds(hash, shards, m) && i < |shards|
    requires forall key | key in shard :: Index(hash, |shards|, key) == i
    requires Updates(hash, |shards|, m, i, shard, after)
    ensures Holds(hash, shards[i := shard], after)
  {
    var updated := shards[i := shard];
    assert Placed(hash, updated);
    forall key
      ensures HoldsAt(updated[Index(hash, |updated|, key)], after, key)
    {
      assert HoldsAt(shards[Index(hash, |shards|, key)], m, key);
    }
  }

  lemma PutHolds(hash: Hash, shards: seq<Table>, m: Table, key: Key, binding: Binding)
    requires Holds(hash, shards, m)
    ensures var after := Put(hash, shards, key, binding);
            && Holds(hash, after, m[key := binding])
            && Total(after, |shards|) == Total(shards, |shards|) + (if key in shards[Index(hash, |shards|, key)] then 0 else 1)
  {
    var i := Index(hash, |shards|, key);
    var shard, after := shards[i][key := binding], m[key := binding];
    forall k
      ensures if Index(hash, |shards|, k) == i then HoldsAt(shard, after, k) else HoldsAt(m, after, k)
    {
      assert HoldsAt(shards[Index(hash, |shards|, k)], m, k);
    }
    UpdateHolds(hash, shards, m, i, shard, after);
    TotalOfUpdate(shards, i, shard, |shards|);
    SizeWithKey(shards[i], key, binding);
  }

  lemma DropHolds(hash: Hash, shards: seq<Table>, m: Table, key: Key)
    requires Holds(hash, shards, m)
    ensures var after := Drop(hash, shards, key);
            && Holds(hash, after, m - {key})
            && Total(after, |shards|) == Total(shards, |shards|) - (if key in shards[Index(hash, |shards|, key)] then 1 else 0)
  {
    var i := Index(hash, |shards|, key);
    var shard, after := shards[i] - {key}, m - {key};
    forall k
      ensures if Index(hash, |shards|, k) == i then HoldsAt(shard, after, k) else HoldsAt(m, after, k)
    {
      assert HoldsAt(shards[Index(hash, |shards|, k)], m, k);
    }
    UpdateHolds(hash, shards, m, i, shard, after);
    TotalOfUpdate(shards, i, shard, |shards|);
    SizeWithoutKey(shards[i], key);
  }

  lemma SweepHolds(hash: Hash, shards: seq<Table>, m: Table, i: nat, now: nat)
    requires Holds(hash, shards, m) && i < |shards|
    ensures var after := Sweep(shards, i, now);
            && Holds(hash, after, Swept(hash, |shards|, m, {i}, now))
            && Total(after, |shards|) == Total(shards, |shards|) - |shards[i]| + |Live(shards[i], now)|
  {
    var shard, after := Live(shards[i], now), Swept(hash, |shards|, m, {i}, now);
    forall k
      ensures if Index(hash, |shards|, k) == i then HoldsAt(shard, after, k) else HoldsAt(m, after, k)
    {
      assert HoldsAt(shards[Index(hash, |shards|, k)], m, k);
    }
    UpdateHolds(hash, shards, m, i, shard, after);
    TotalOfUpdate(shards, i, shard, |shards|);
  }

  lemma SizeWithKey(m: Table, key: Key, binding: Binding)
    ensures |m[key := binding]| == |m| + (if key in m then 0 else 1)
  {
    assert m[key := binding].Keys == m.Keys + {key};
  }

  lemma SizeWithoutKey(m: Table, key: Key)
    ensures |m - {key}| == |m| - (if key in m then 1 else 0)
  {
    assert (m - {key}).Keys == m.Keys - {key};
  }

  /** The table with all the keys bound. */
  function Bound(m: Table, keys: seq<Key>, binding: Binding): Table {
    m + map key | key in keys :: binding
  }

  lemma BoundNothing(m: Table, binding: Binding)
    ensures Bound(m, [], binding) == m
  {
  }

  lemma RememberedNext(m: Table, keys: seq<Key>, i: nat, binding: Binding)
    requires i < |keys|
    ensures Bound(m, keys[..i], binding)[keys[i] := binding] == Bound(m, keys[..i + 1], binding)
  {
    assert keys[..i + 1] == keys[..i] + [keys[i]];
  }

  // ----- snapshots

  /** The binding that an unexpired snapshot becomes. */
  function Fitted(s: BindingSnapshot, now: nat): Binding
    requires s.expiresAt > now
  {
    Binding(s.target, now + (s.expiresAt - now) % U64)
  }

  /** The remaining lifetime is the 64-bit number that differs from the given one by a multiple of 2^64. */
  lemma FittedExactlyIff(s: BindingSnapshot, now: nat)
    requires s.expiresAt > now
    ensures var b := Fitted(s, now);
            now <= b.expiresAt < now + U64 && (s.expiresAt - b.expiresAt) % U64 == 0 && b.target == s.target
    ensures Fitted(s, now) == Binding(s.target, s.expiresAt) <==> s.expiresAt < now + U64
  {
  }

  function Installed(list: seq<BindingSnapshot>, now: nat): Table {
    if list == [] then map[]
    else
      var earlier, s := Installed(list[..|list| - 1], now), list[|list| - 1];
      if s.expiresAt <= now then earlier
      else earlier[s.key := Fitted(s, now)]
  }

  /** Upserting goes one by one; an expired snapshot removes the binding. */
  function Upserted(m: Table, list: seq<BindingSnapshot>, now: nat): Table {
    if list == [] then m
    else
      var earlier, s := Upserted(m, list[..|list| - 1], now), list[|list| - 1];
      if s.expiresAt <= now then earlier - {s.key}
      else earlier[s.key := Fitted(s, now)]
  }

  lemma UpsertedNext(m: Table, list: seq<BindingSnapshot>, i: nat, now: nat)
    requires i < |list|
    ensures var earlier, s := Upserted(m, list[..i], now), list[i];
            Upserted(m, list[..i + 1], now) == if s.expiresAt <= now then earlier - {s.key} else earlier[s.key := Fitted(s, now)]
  {
    assert list[..i + 1][..i] == list[..i];
  }

  lemma InstalledNext(list: seq<BindingSnapshot>, i: nat, now: nat)
    requires i < |list|
    ensures var earlier, s := Installed(list[..i], now), list[i];
            Installed(list[..i + 1], now) == if s.expiresAt <= now then earlier else earlier[s.key := Fitted(s, now)]
  {
    assert list[..i + 1][..i] == list[..i];
  }

  function KeysOf(list: seq<BindingSnapshot>): set<Key> {
    set s | s in list :: s.key
  }

  /** The list holds each binding of the table once, in any order. */
  ghost predicate Lists(list: seq<BindingSnapshot>, m: Table) {
    && KeysOf(list) == m.Keys
    && (forall s | s in list :: s.key in m && m[s.key] == Binding(s.target, s.expiresAt))
    && forall i, j | 0 <= i < j < |list| :: list[i].key != list[j].key
  }

  /** A list without repeated keys installs exactly its unexpired entries. */
  lemma {:induction false} InstalledMembers(list: seq<BindingSnapshot>, now: nat, i: nat)
    requires forall i, j | 0 <= i < j < |list| :: list[i].key != list[j].key
    requires i < |list|
    ensures Installed(list, now).Keys <= KeysOf(list)
    ensures var m, s := Installed(list, now), list[i];
            && (s.key in m <==> s.expiresAt > now)
            && (s.key in m ==> m[s.key] == Fitted(s, now))
  {
    var last := |list| - 1;
    var earlier := list[..last];
    InstalledKeys(earlier, now);
    InstalledKeys(list, now);
    if i < last {
      InstalledMembers(earlier, now, i);
    }
  }

  /** The table has the entry's binding, or no binding if the entry has expired. */
  predicate Took(m: Table, s: BindingSnapshot, now: nat) {
    if s.expiresAt > now then s.key in m && m[s.key] == Fitted(s, now) else s.key !in m
  }

  /** Entry `at` is the last unexpired one of its key. */
  ghost predicate LastLive(list: seq<BindingSnapshot>, now: nat, key: Key, at: nat) {
    && at < |list| && list[at].key == key && list[at].expiresAt > now
    && forall i | at < i < |list| && list[i].key == key :: list[i].expiresAt <= now
  }

  /** Of a list with repeated keys, installing takes the last unexpired entry of each. */
  lemma {:induction false} InstalledIsLast(list: seq<BindingSnapshot>, now: nat, key: Key)
    ensures forall at: nat | LastLive(list, now, key, at) :: Took(Installed(list, now), list[at], now)
    ensures (forall i | 0 <= i < |list| && list[i].key == key :: list[i].expiresAt <= now) ==> key !in Installed(list, now)
  {
    if list != [] {
      var n := |list| - 1;
      var earlier, installed := Installed(list[..n], now), Installed(list, now);
      InstalledIsLast(list[..n], now, key);
      forall at: nat | LastLive(list, now, key, at)
        ensures Took(installed, list[at], now)
      {
        if at < n {
          assert list[n].key == key ==> list[n].expiresAt <= now;
          assert LastLive(list[..n], now, key, at);
          assert Took(earlier, list[..n][at], now);
        }
      }
    }
  }

  /** Entry `at` is the last one of its key. */
  ghost predicate LastOf(list: seq<BindingSnapshot>, key: Key, at: nat) {
    at < |list| && list[at].key == key && forall i | at < i < |list| :: list[i].key != key
  }

  /** Upserting leaves a key with its last entry, or with none if that has expired, and other keys as they were. */
  lemma {:induction false} UpsertedIsLast(m: Table, list: seq<BindingSnapshot>, now: nat, key: Key)
    ensures forall at: nat | LastOf(list, key, at) :: Took(Upserted(m, list, now), list[at], now)
    ensures (forall i | 0 <= i < |list| :: list[i].key != key) ==>
              (key in Upserted(m, list, now) <==> key in m) && (key in m ==> Upserted(m, list, now)[key] == m[key])
  {
    if list != [] {
      var n := |list| - 1;
      var earlier, after := Upserted(m, list[..n], now), Upserted(m, list, now);
      UpsertedIsLast(m, list[..n], now, key);
      forall at: nat | LastOf(list, key, at)
        ensures Took(after, list[at], now)
      {
        if at < n {
          assert list[n].key != key && LastOf(list[..n], key, at);
          assert Took(earlier, list[..n][at], now);
        }
      }
    }
  }

  lemma {:induction false} InstalledKeys(list: seq<BindingSnapshot>, now: nat)
    ensures Installed(list, now).Keys <= KeysOf(list)
  {
    if list != [] {
      InstalledKeys(list[..|list| - 1], now);
    }
  }

  lemma Listed(list: seq<BindingSnapshot>, m: Table, key: Key) returns (i: nat)
    requires Lists(list, m) && key in m
    ensures i < |list| && list[i] == BindingSnapshot(key, m[key].target, m[key].expiresAt)
  {
    var s :| s in list && s.key == key;
    i :| 0 <= i < |list| && list[i] == s;
  }

  lemma InstalledAt(list: seq<BindingSnapshot>, m: Table, now: nat, key: Key)
    requires Lists(list, m) && key in m
    ensures var installed := Installed(list, now);
            && (key in installed <==> m[key].expiresAt > now)
            && (key in installed ==> installed[key] == Fitted(BindingSnapshot(key, m[key].target, m[key].expiresAt), now))
  {
    var i := Listed(list, m, key);
    InstalledMembers(list, now, i);
  }

  /**
   Installing a snapshot of a table restores exactly its unexpired bindings, expiries included, if and only
   if none of them lives 2^64 milliseconds or more from now.
   */
  lemma InstallRestoresIff(list: seq<BindingSnapshot>, m: Table, now: nat)
    requires Lists(list, m)
    ensures Installed(list, now) == Live(m, now) <==> forall key | key in m :: m[key].expiresAt < now + U64
  {
    var installed, live := Installed(list, now), Live(m, now);
    InstalledKeys(list, now);
    forall key | key in m
      ensures key in installed <==> key in live
      ensures key in live ==> (installed[key] == live[key] <==> m[key].expiresAt < now + U64)
    {
      InstalledAt(list, m, now, key);
      if key in live {
        FittedExactlyIff(BindingSnapshot(key, m[key].target, m[key].expiresAt), now);
      }
    }
    SameIff(installed, live, m, now);
  }

  lemma SameIff(installed: Table, live: Table, m: Table, now: nat)
    requires live == Live(m, now) && installed.Keys <= m.Keys
    requires forall key | key in m :: key in installed <==> key in live
    requires forall key | key in live && key in installed :: installed[key] == live[key] <==> m[key].expiresAt < now + U64
    ensures installed == live <==> forall key | key in m :: m[key].expiresAt < now + U64
  {
    if installed == live {
      forall key | key in m
        ensures m[key].expiresAt < now + U64
      {
        assert key in live <==> m[key].expiresAt > now;
      }
    }
  }

  // ----- the table

  class AffinityTable {
    const enabled: bool
    const ttlSeconds: nat
    const hash: Hash
    const count: nat
    var shards: seq<Table>
    var len: nat
    ghost var bindings: Table

    /** The table as a state of the system of locked sections, with no removal in flight. */
    ghost function View(): State
      reads this
    {
      State(shards, bindings, len, 0)
    }

    ghost predicate Valid()
      reads this
    {
      Holds(hash, shards, bindings) && |shards| == count && len == Total(shards, |shards|)
    }

    constructor (enabled: bool, ttlSeconds: nat, hash: Hash)
      ensures Valid() && bindings == map[] && len == 0 && count == SHARDS
      ensures this.enabled == enabled && this.ttlSeconds == ttlSeconds && this.hash == hash
    {
      this.enabled, this.ttlSeconds, this.hash := enabled, ttlSeconds, hash;
      shards := seq(SHARDS, _ => map[]);
      count, len, bindings := SHARDS, 0, map[];
      new;
      EmptyShards(hash, shards);
    }

    method PruneShard(i: nat, now: nat)
      requires Valid() && i < count
      modifies this
      ensures Valid()
      ensures bindings == Swept(hash, count, old(bindings), {i}, now)
      ensures IsStep(hash, old(View()), Section.SweepShard(i, now), View())
    {
      SweepHolds(hash, shards, bindings, i, now);
      SubsetSize(Live(shards[i], now).Keys, shards[i].Keys);
      var before := |shards[i]|;
      shards := shards[i := Live(shards[i], now)];
      bindings := Swept(hash, count, bindings, {i}, now);
      var removed := before - |shards[i]|;
      if removed > 0 {
        len := len - removed;
      }
    }

    method Insert(key: Key, binding: Binding)
      requires Valid()
      modifies this
      ensures Valid()
      ensures bindings == old(bindings)[key := binding]
      ensures IsStep(hash, old(View()), Section.Insert(key, binding), View())
    {
      PutHolds(hash, shards, bindings, key, binding);
      var i := Index(hash, count, key);
      var added := key !in shards[i];
      shards := shards[i := shards[i][key := binding]];
      bindings := bindings[key := binding];
      if added {
        len := len + 1;
      }
    }

    /** The locked part of a removal; the counter still counts what it removed. */
    method Take(key: Key) returns (removed: bool)
      requires Valid()
      modifies this`shards, this`bindings
      ensures Holds(hash, shards, bindings) && |shards| == count
      ensures shards == Drop(hash, old(shards), key) && bindings == old(bindings) - {key}
      ensures removed <==> key in old(shards[Index(hash, count, key)])
      ensures len == Total(shards, |shards|) + if removed then 1 else 0
    {
      DropHolds(hash, shards, bindings, key);
      var i := Index(hash, count, key);
      removed := key in shards[i];
      shards := shards[i := shards[i] - {key}];
      bindings := bindings - {key};
    }

    method RemoveKey(key: Key)
      requires Valid()
      modifies this
      ensures Valid()
      ensures bindings == old(bindings) - {key}
      ensures IsStep(hash, old(View()), Section.Delete(key), View())
    {
      var removed := Take(key);
      if removed {
        len := len - 1;
      }
    }

    /** Drops the expired bindings of the key's shard and then looks the key up there. */
    method Probe(key: Key, now: nat) returns (r: Option<string>)
      requires Valid()
      modifies this
      ensures Valid()
      ensures r == Found(old(bindings), key, now)
      ensures bindings == Swept(hash, count, old(bindings), {Index(hash, count, key)}, now)
    {
      var i := Index(hash, count, key);
      assert HoldsAt(shards[i], bindings, key);
      PruneShard(i, now);
      if key in shards[i] {
        return Some(shards[i][key].target);
      }
      return None;
    }

    method LookupKey(key: Key, now: nat) returns (r: Option<string>)
      requires Valid()
      modifies this
      ensures Valid()
      ensures r == if enabled then Found(old(bindings), key, now) else None
      ensures r.Some? <==> enabled && key in old(bindings) && old(bindings)[key].expiresAt > now
      ensures r.Some? ==> r.value == old(bindings)[key].target
      ensures bindings == if enabled
                            then Swept(hash, count, old(bindings), {Index(hash, count, key)}, now)
                            else old(bindings)
    {
      if !enabled {
        return None;
      }
      r := Probe(key, now);
    }

    /** Looks the keys up in turn, dropping expired bindings from the shards of the keys it tries. */
    method LookupKeys(keys: seq<Key>, now: nat) returns (r: Option<string>, ghost tried: nat)
      requires Valid()
      modifies this
      ensures Valid()
      ensures r == FirstFound(old(bindings), keys, now)
      ensures tried <= |keys| && (r.None? ==> tried == |keys|)
      ensures r.Some? ==> tried > 0 && Found(old(bindings), keys[tried - 1], now) == r
      ensures forall j | 0 <= j < tried && (j < tried - 1 || r.None?) :: Found(old(bindings), keys[j], now).None?
      ensures bindings == Swept(hash, count, old(bindings), Indices(hash, count, keys[..tried]), now)
    {
      SweptNothing(hash, count, old(bindings), now);
      tried := 0;
      var j := 0;
      while j < |keys|
        invariant 0 <= j <= |keys| && tried == j && Valid()
        invariant bindings == Swept(hash, count, old(bindings), Indices(hash, count, keys[..j]), now)
        invariant FirstFound(old(bindings), keys, now) == FirstFound(old(bindings), keys[j..], now)
        invariant forall i | 0 <= i < j :: Found(old(bindings), keys[i], now).None?
      {
        FirstFoundFrom(old(bindings), keys, j, now);
        FoundInSwept(hash, count, old(bindings), Indices(hash, count, keys[..j]), keys[j], now);
        SweptTwice(hash, count, old(bindings), Indices(hash, count, keys[..j]), Index(hash, count, keys[j]), now);
        IndicesNext(hash, count, keys, j);
        r := Probe(keys[j], now);
        tried := tried + 1;
        if r.Some? {
          return;
        }
        j := j + 1;
      }
      assert keys[..j] == keys;
      r := None;
    }

    method Lookup(messageKeys: Result<seq<Key>>, now: nat) returns (r: Result<Option<string>>, ghost tried: nat)
      requires Valid()
      modifies this
      ensures Valid()
      ensures !enabled ==> r == Ok(None)
      ensures enabled && messageKeys.Err? ==> r == Err(messageKeys.message)
      ensures !enabled || messageKeys.Err? ==> bindings == old(bindings)
      ensures enabled && messageKeys.Ok? ==>
                var keys := messageKeys.value;
                && r == Ok(FirstFound(old(bindings), keys, now))
                && tried <= |keys| && (r.value.None? ==> tried == |keys|)
                && (r.value.Some? ==> tried > 0 && Found(old(bindings), keys[tried - 1], now) == r.value)
                && (forall j | 0 <= j < tried && (j < tried - 1 || r.value.None?) ::
                      Found(old(bindings), keys[j], now).None?)
                && bindings == Swept(hash, count, old(bindings), Indices(hash, count, keys[..tried]), now)
    {
      tried := 0;
      if !enabled {
        return Ok(None), tried;
      }
      if messageKeys.Err? {
        return Err(messageKeys.message), tried;
      }
      var found;
      found, tried := LookupKeys(messageKeys.value, now);
      return Ok(found), tried;
    }

    method RememberKey(key: Key, target: string, ttl: nat, now: nat) returns (list: seq<BindingSnapshot>)
      requires Valid()
      modifies this
      ensures Valid()
      ensures !enabled || ttl == 0 ==> list == [] && bindings == old(bindings)
      ensures enabled && ttl > 0 ==>
                && list == [BindingSnapshot(key, target, now + ttl)]
                && bindings == old(bindings)[key := Binding(target, now + ttl)]
    {
      if !enabled || ttl == 0 {
        return [];
      }
      Insert(key, Binding(target, now + ttl));
      return [BindingSnapshot(key, target, now + ttl)];
    }

    method Remember(messageKeys: Result<seq<Key>>, target: string, now: nat) returns (r: Result<seq<BindingSnapshot>>)
      requires Valid()
      modifies this
      ensures Valid()
      ensures !enabled ==> r == Ok([])
      ensures enabled && messageKeys.Err? ==> r == Err(messageKeys.message)
      ensures !enabled || messageKeys.Err? ==> bindings == old(bindings)
      ensures enabled && messageKeys.Ok? ==>
                var keys, binding := messageKeys.value, Binding(target, now + ttlSeconds * 1_000);
                && r.Ok? && |r.value| == |keys|
                && (forall i | 0 <= i < |keys| :: r.value[i] == BindingSnapshot(keys[i], target, binding.expiresAt))
                && bindings == Bound(old(bindings), keys, binding)
    {
      if !enabled {
        return Ok([]);
      }
      if messageKeys.Err? {
        return Err(messageKeys.message);
      }
      var keys := messageKeys.value;
      var expiresAt := now + ttlSeconds * 1_000;
      var list := seq(|keys|, i requires 0 <= i < |keys| => BindingSnapshot(keys[i], target, expiresAt));
      InsertAll(keys, Binding(target, expiresAt));
      return Ok(list);
    }

    method InsertAll(keys: seq<Key>, binding: Binding)
      requires Valid()
      modifies this
      ensures Valid() && bindings == Bound(old(bindings), keys, binding)
    {
      var i := 0;
      BoundNothing(bindings, binding);
      while i < |keys|
        invariant 0 <= i <= |keys| && Valid()
        invariant bindings == Bound(old(bindings), keys[..i], binding)
      {
        InsertNext(keys, i, binding, old(bindings));
        i := i + 1;
      }
      assert keys[..i] == keys;
    }

    /** One more of the keys, on top of the bindings `before` the first. */
    method InsertNext(keys: seq<Key>, i: nat, binding: Binding, ghost before: Table)
      requires Valid() && i < |keys| && bindings == Bound(before, keys[..i], binding)
      modifies this
      ensures Valid() && bindings == Bound(before, keys[..i + 1], binding)
    {
      RememberedNext(before, keys, i, binding);
      Insert(keys[i], binding);
    }

    method UpsertSnapshotBindings(list: seq<BindingSnapshot>, now: nat)
      requires Valid()
      modifies this
      ensures Valid()
      ensures bindings == Upserted(old(bindings), list, now)
    {
      var i := 0;
      while i < |list|
        invariant 0 <= i <= |list| && Valid()
        invariant bindings == Upserted(old(bindings), list[..i], now)
      {
        var s := list[i];
        UpsertedNext(old(bindings), list, i, now);
        if s.expiresAt <= now {
          RemoveKey(s.key);
        } else {
          Insert(s.key, Fitted(s, now));
        }
        i := i + 1;
      }
      assert list[..i] == list;
    }

    method InstallSnapshot(list: seq<BindingSnapshot>, now: nat)
      requires Valid()
      modifies this
      ensures Valid()
      ensures bindings == Installed(list, now)
    {
      var filled := seq(|shards|, _ => map[]);
      EmptyShards(hash, filled);
      var i := 0;
      while i < |list|
        invariant 0 <= i <= |list| && Valid() && |filled| == count
        invariant Holds(hash, filled, Installed(list[..i], now))
      {
        var s := list[i];
        InstalledNext(list, i, now);
        if s.expiresAt > now {
          var binding := Fitted(s, now);
          PutHolds(hash, filled, Installed(list[..i], now), s.key, binding);
          filled := Put(hash, filled, s.key, binding);
        }
        i := i + 1;
      }
      assert list[..i] == list;
      ReplaceAll(filled, Installed(list, now));
    }

    method ReplaceAll(filled: seq<Table>, ghost table: Table)
      requires Valid() && Holds(hash, filled, table) && |filled| == count
      modifies this
      ensures Valid() && bindings == table
      ensures IsStep(hash, old(View()), Section.Replace(filled, table), View())
    {
      var total := 0;
      var i := 0;
      while i < |filled|
        invariant 0 <= i <= |filled| && total == Total(filled, i)
      {
        total := total + |filled[i]|;
        i := i + 1;
      }
      shards := filled;
      bindings := table;
      len := total;
    }

    method Snapshot(now: nat) returns (list: seq<BindingSnapshot>)
      requires Valid()
      modifies this
      ensures Valid()
      ensures bindings == Live(old(bindings), now)
      ensures Lists(list, Live(old(bindings), now))
    {
      list := [];
      SweptNothing(hash, count, bindings, now);
      PartOfAll(hash, count, bindings);
      var i := 0;
      while i < count
        invariant 0 <= i <= count && Valid()
        invariant bindings == SweptBelow(hash, count, old(bindings), i, now)
        invariant Lists(list, Part(hash, count, bindings, i))
      {
        SweptNext(hash, count, old(bindings), i, now);
        list := SnapshotShard(i, now, list);
        i := i + 1;
      }
      PartOfAll(hash, count, bindings);
      SweptEverything(hash, count, old(bindings), now);
    }

    /** Extends the list by the unexpired bindings of one shard. */
    method SnapshotShard(i: nat, now: nat, list: seq<BindingSnapshot>) returns (extended: seq<BindingSnapshot>)
      requires Valid() && i < count && Lists(list, Part(hash, count, bindings, i))
      modifies this
      ensures Valid()
      ensures bindings == Swept(hash, count, old(bindings), {i}, now)
      ensures Lists(extended, Part(hash, count, bindings, i + 1))
    {
      PruneShard(i, now);
      var entries := ListShard(shards[i]);
      ListsNext(hash, old(bindings), shards, i, now, list, entries);
      extended := list + entries;
    }

    /** Drops the expired bindings of every shard. */
    method PruneAll(now: nat)
      requires Valid()
      modifies this
      ensures Valid() && bindings == Live(old(bindings), now)
    {
      SweptNothing(hash, count, old(bindings), now);
      var i := 0;
      while i < count
        invariant 0 <= i <= count && Valid()
        invariant bindings == SweptBelow(hash, count, old(bindings), i, now)
      {
        SweptNext(hash, count, old(bindings), i, now);
        PruneShard(i, now);
        i := i + 1;
      }
      SweptEverything(hash, count, old(bindings), now);
    }

    method ActiveLen(now: nat) returns (active: nat)
      requires Valid()
      modifies this
      ensures Valid()
      ensures bindings == Live(old(bindings), now) && active == |Live(old(bindings), now)|
    {
      PruneAll(now);
      TotalIsSize(hash, shards, bindings);
      return len;
    }

    method BindingLen() returns (stored: nat)
      requires Valid()
      ensures stored == |bindings|
    {
      TotalIsSize(hash, shards, bindings);
      return len;
    }
  }

  /** The bindings of one shard, in some order. */
  method ListShard(shard: Table) returns (list: seq<BindingSnapshot>)
    ensures Lists(list, shard)
  {
    list := [];
    var rest := shard.Keys;
    while rest != {}
      invariant rest <= shard.Keys
      invariant KeysOf(list) == shard.Keys - rest
      invariant forall s | s in list :: s.key in shard && shard[s.key] == Binding(s.target, s.expiresAt)
      invariant forall i, j | 0 <= i < j < |list| :: list[i].key != list[j].key
      decreases rest
    {
      var key :| key in rest;
      var s := BindingSnapshot(key, shard[key].target, shard[key].expiresAt);
      KeysOfAppended(list, s);
      assert forall i | 0 <= i < |list| :: list[i] in list && list[i].key in KeysOf(list);
      list := list + [s];
      rest := rest - {key};
    }
  }

  lemma KeysOfAppended(list: seq<BindingSnapshot>, s: BindingSnapshot)
    ensures KeysOf(list + [s]) == KeysOf(list) + {s.key}
  {
    assert s in list + [s];
  }

  lemma ListsJoin(a: seq<BindingSnapshot>, m: Table, b: seq<BindingSnapshot>, shard: Table)
    requires Lists(a, m) && Lists(b, shard) && m.Keys !! shard.Keys
    ensures Lists(a + b, m + shard)
  {
    assert KeysOf(a + b) == KeysOf(a) + KeysOf(b);
    assert forall i | 0 <= i < |a| :: a[i] in a;
    assert forall i | 0 <= i < |b| :: b[i] in b;
  }

  lemma ListsNext(hash: Hash, before: Table, shards: seq<Table>, i: nat, now: nat,
                  list: seq<BindingSnapshot>, entries: seq<BindingSnapshot>)
    requires i < |shards| && Holds(hash, shards, Swept(hash, |shards|, before, {i}, now))
    requires Lists(list, Part(hash, |shards|, before, i)) && Lists(entries, shards[i])
    ensures Lists(list + entries, Part(hash, |shards|, Swept(hash, |shards|, before, {i}, now), i + 1))
  {
    var after := Swept(hash, |shards|, before, {i}, now);
    assert Part(hash, |shards|, before, i) == Part(hash, |shards|, after, i);
    PartNext(hash, shards, after, i);
    ListsJoin(list, Part(hash, |shards|, after, i), entries, shards[i]);
  }

  lemma PartOfAll(hash: Hash, n: nat, m: Table)
    requires n > 0
    ensures Part(hash, n, m, n) == m && Part(hash, n, m, 0) == map[]
  {
  }

  lemma SweptNothing(hash: Hash, n: nat, m: Table, now: nat)
    requires n > 0
    ensures Swept(hash, n, m, {}, now) == m == SweptBelow(hash, n, m, 0, now)
  {
  }

  lemma SweptTwice(hash: Hash, n: nat, m: Table, indices: set<nat>, i: nat, now: nat)
    requires n > 0
    ensures Swept(hash, n, Swept(hash, n, m, indices, now), {i}, now) == Swept(hash, n, m, indices + {i}, now)
  {
  }

  lemma SweptNext(hash: Hash, n: nat, m: Table, i: nat, now: nat)
    requires n > 0
    ensures Swept(hash, n, SweptBelow(hash, n, m, i, now), {i}, now) == SweptBelow(hash, n, m, i + 1, now)
  {
  }

  lemma SweptEverything(hash: Hash, n: nat, m: Table, now: nat)
    requires n > 0
    ensures SweptBelow(hash, n, m, n, now) == Live(m, now)
  {
  }

  // ----- locked sections of many callers, in any order

  /**
   One locked section of some caller.  A removal by key subtracts from the counter only after it has
   released its shard: `Take` is its locked part and `Settle` the subtraction.
   */
  datatype Section =
    | Insert(key: Key, binding: Binding)
    | Delete(key: Key)
    | SweepShard(index: nat, now: nat)
    | Take(key: Key)
    | Settle
    | Replace(shards: seq<Table>, table: Table)

  /** `table` is what the shards are meant to hold. */
  datatype State = State(shards: seq<Table>, table: Table, len: int, inFlight: nat)

  ghost predicate Possible(hash: Hash, s: State, section: Section) {
    match section
    case SweepShard(i, _) => i < |s.shards|
    case Settle => s.inFlight > 0
    case Replace(shards, table) => Holds(hash, shards, table) && |shards| == |s.shards|
    case _ => true
  }

  ghost function Step(hash: Hash, s: State, section: Section): State
    requires |s.shards| > 0 && Possible(hash, s, section)
  {
    match section
    case Insert(key, binding) =>
      var added := if key in s.shards[Index(hash, |s.shards|, key)] then 0 else 1;
      State(Put(hash, s.shards, key, binding), s.table[key := binding], s.len + added, s.inFlight)
    case Delete(key) =>
      var removed := if key in s.shards[Index(hash, |s.shards|, key)] then 1 else 0;
      State(Drop(hash, s.shards, key), s.table - {key}, s.len - removed, s.inFlight)
    case SweepShard(i, now) =>
      State(Sweep(s.shards, i, now), Swept(hash, |s.shards|, s.table, {i}, now),
            s.len - (|s.shards[i]| - |Live(s.shards[i], now)|), s.inFlight)
    case Take(key) =>
      var removed := if key in s.shards[Index(hash, |s.shards|, key)] then 1 else 0;
      State(Drop(hash, s.shards, key), s.table - {key}, s.len, s.inFlight + removed)
    case Settle => State(s.shards, s.table, s.len - 1, s.inFlight - 1)
    case Replace(shards, table) => State(shards, table, Total(shards, |shards|), s.inFlight)
  }

  ghost predicate IsRun(hash: Hash, states: seq<State>, sections: seq<Section>) {
    && |states| == |sections| + 1
    && forall i | 0 <= i < |sections| :: IsStep(hash, states[i], sections[i], states[i + 1])
  }

  ghost predicate IsStep(hash: Hash, s: State, section: Section, next: State) {
    |s.shards| > 0 && Possible(hash, s, section) && next == Step(hash, s, section)
  }

  ghost predicate Started(s: State) {
    |s.shards| > 0 && s.table == map[] && s.len == 0 && s.inFlight == 0 && forall i | 0 <= i < |s.shards| :: s.shards[i] == map[]
  }

  /** One table whose expired bindings are never removed, only ignored. */
  ghost function FlatStep(m: Table, section: Section): Table {
    match section
    case Insert(key, binding) => m[key := binding]
    case Delete(key) => m - {key}
    case Take(key) => m - {key}
    case Replace(_, table) => table
    case _ => m
  }

  ghost function FlatAfter(sections: seq<Section>): Table {
    if sections == [] then map[] else FlatStep(FlatAfter(sections[..|sections| - 1]), sections[|sections| - 1])
  }

  /** The latest time that any section swept with. */
  function Horizon(sections: seq<Section>): nat {
    if sections == [] then 0
    else
      var earlier, last := Horizon(sections[..|sections| - 1]), sections[|sections| - 1];
      if last.SweepShard? && last.now > earlier then last.now else earlier
  }

  /** `m` is `flat` but for bindings that expired by `horizon`. */
  ghost predicate Agrees(m: Table, flat: Table, horizon: nat) {
    && (forall key | key in m :: key in flat && m[key] == flat[key])
    && (forall key | key in flat && key !in m :: flat[key].expiresAt <= horizon)
  }

  /** By how much the counter exceeds the entries there are and those whose removal is in flight. */
  ghost function Excess(s: State): int {
    s.len - s.inFlight - Total(s.shards, |s.shards|)
  }

  lemma StepKeepsTable(hash: Hash, s: State, section: Section, next: State)
    requires Holds(hash, s.shards, s.table) && IsStep(hash, s, section, next)
    ensures Holds(hash, next.shards, next.table)
    ensures Excess(next) == if section.Replace? then -(s.inFlight as int) else Excess(s)
  {
    match section
    case Insert(key, binding) => PutHolds(hash, s.shards, s.table, key, binding);
    case Delete(key) => DropHolds(hash, s.shards, s.table, key);
    case SweepShard(i, now) => SweepHolds(hash, s.shards, s.table, i, now);
    case Take(key) => DropHolds(hash, s.shards, s.table, key);
    case _ =>
  }

  lemma StepAgrees(hash: Hash, s: State, section: Section, next: State, flat: Table, horizon: nat)
    requires IsStep(hash, s, section, next) && Agrees(s.table, flat, horizon)
    ensures Agrees(next.table, FlatStep(flat, section),
                   if section.SweepShard? && section.now > horizon then section.now else horizon)
  {
  }

  /** The removals that were between their two parts when the whole table was last replaced. */
  ghost function Stranded(states: seq<State>, sections: seq<Section>): nat
    requires |states| == |sections| + 1
  {
    if sections == [] then 0
    else
      var k := |sections| - 1;
      if sections[k].Replace? then states[k].inFlight else Stranded(states[..k + 1], sections[..k])
  }

  /** What holds after every run, whichever way the callers' sections interleave. */
  lemma {:induction false} RunInvariant(hash: Hash, states: seq<State>, sections: seq<Section>)
    requires IsRun(hash, states, sections) && Started(states[0])
    ensures var last := states[|sections|];
            && Holds(hash, last.shards, last.table)
            && Excess(last) == -(Stranded(states, sections) as int)
            && Agrees(last.table, FlatAfter(sections), Horizon(sections))
    decreases |sections|
  {
    if sections == [] {
      EmptyShards(hash, states[0].shards);
    } else {
      var k := |sections| - 1;
      RunInvariant(hash, states[..k + 1], sections[..k]);
      assert IsStep(hash, states[k], sections[k], states[k + 1]);
      StepKeepsTable(hash, states[k], sections[k], states[k + 1]);
      StepAgrees(hash, states[k], sections[k], states[k + 1], FlatAfter(sections[..k]), Horizon(sections[..k]));
    }
  }

  /**
   The sharded table refines the flat one: after any interleaving, a lookup at a time no earlier than any
   sweep so far answers as the flat table does, and an earlier one never answers anything else than that or
   nothing.
   */
  lemma LookupsAgree(hash: Hash, states: seq<State>, sections: seq<Section>, key: Key, now: nat)
    requires IsRun(hash, states, sections) && Started(states[0])
    ensures var shards := states[|sections|].shards;
            && |shards| > 0
            && var answer := Found(shards[Index(hash, |shards|, key)], key, now);
            && (answer.Some? ==> answer == Found(FlatAfter(sections), key, now))
            && (now >= Horizon(sections) ==> answer == Found(FlatAfter(sections), key, now))
  {
    RunInvariant(hash, states, sections);
    var last := states[|sections|];
    assert HoldsAt(last.shards[Index(hash, |last.shards|, key)], last.table, key);
  }

  /**
   Once no removal is in flight, the counter equals the number of stored bindings if and only if no removal
   was in flight when the table was last replaced.
   */
  lemma CounterIsExactIff(hash: Hash, states: seq<State>, sections: seq<Section>)
    requires IsRun(hash, states, sections) && Started(states[0]) && states[|sections|].inFlight == 0
    ensures states[|sections|].len == |states[|sections|].table| <==> Stranded(states, sections) == 0
  {
    RunInvariant(hash, states, sections);
    TotalIsSize(hash, states[|sections|].shards, states[|sections|].table);
  }

  /** Sections from `s` to a state with counter below zero, none of which replaces the table. */
  ghost predicate Underflows(hash: Hash, s: State, states: seq<State>, sections: seq<Section>) {
    && IsRun(hash, states, sections) && states[0] == s
    && (forall i | 0 <= i < |sections| :: !sections[i].Replace?)
    && states[|sections|].len < 0
  }

  /** Settles all removals in flight and then empties the table. */
  lemma {:induction false} Emptied(hash: Hash, s: State) returns (states: seq<State>, sections: seq<Section>)
    requires Holds(hash, s.shards, s.table)
    ensures IsRun(hash, states, sections) && states[0] == s
    ensures forall i | 0 <= i < |sections| :: !sections[i].Replace?
    ensures states[|sections|].len == Excess(s)
    decreases s.inFlight + Total(s.shards, |s.shards|)
  {
    if s.inFlight == 0 && Total(s.shards, |s.shards|) == 0 {
      states, sections := [s], [];
    } else {
      var section, next := NextToEmpty(hash, s);
      var later, rest := Emptied(hash, next);
      states, sections := [s] + later, [section] + rest;
      StepFirst(hash, s, section, later, rest);
    }
  }

  lemma StepFirst(hash: Hash, s: State, section: Section, later: seq<State>, rest: seq<Section>)
    requires IsRun(hash, later, rest) && IsStep(hash, s, section, later[0])
    ensures IsRun(hash, [s] + later, [section] + rest)
  {
    var states, sections := [s] + later, [section] + rest;
    forall i | 0 <= i < |sections|
      ensures IsStep(hash, states[i], sections[i], states[i + 1])
    {
      if i > 0 {
        assert IsStep(hash, later[i - 1], rest[i - 1], later[i]);
      }
    }
  }

  lemma NextToEmpty(hash: Hash, s: State) returns (section: Section, next: State)
    requires Holds(hash, s.shards, s.table) && s.inFlight + Total(s.shards, |s.shards|) > 0
    ensures !section.Replace? && IsStep(hash, s, section, next) && Holds(hash, next.shards, next.table)
    ensures Excess(next) == Excess(s)
    ensures next.inFlight + Total(next.shards, |next.shards|) < s.inFlight + Total(s.shards, |s.shards|)
  {
    if s.inFlight > 0 {
      section := Settle;
    } else {
      TotalIsSize(hash, s.shards, s.table);
      var key :| key in s.table.Keys;
      assert HoldsAt(s.shards[Index(hash, |s.shards|, key)], s.table, key);
      DropHolds(hash, s.shards, s.table, key);
      section := Delete(key);
    }
    next := Step(hash, s, section);
  }

  /** A run without replacement keeps the counter's excess. */
  lemma {:induction false} ExcessIsKept(hash: Hash, states: seq<State>, sections: seq<Section>)
    requires IsRun(hash, states, sections) && Holds(hash, states[0].shards, states[0].table)
    requires forall i | 0 <= i < |sections| :: !sections[i].Replace?
    ensures var first, last := states[0], states[|sections|];
            && Holds(hash, last.shards, last.table)
            && Excess(last) == Excess(first)
    decreases |sections|
  {
    if sections != [] {
      var k := |sections| - 1;
      ExcessIsKept(hash, states[..k + 1], sections[..k]);
      assert IsStep(hash, states[k], sections[k], states[k + 1]);
      StepKeepsTable(hash, states[k], sections[k], states[k + 1]);
    }
  }

  /**
   The counter can drop below zero, before the next replacement, if and only if a removal was in flight
   when the table was last replaced.
   */
  lemma CounterUnderflowsIff(hash: Hash, states: seq<State>, sections: seq<Section>)
    requires IsRun(hash, states, sections) && Started(states[0])
    ensures (exists later, rest :: Underflows(hash, states[|sections|], later, rest))
            <==> Stranded(states, sections) > 0
  {
    var last := states[|sections|];
    RunInvariant(hash, states, sections);
    if Stranded(states, sections) > 0 {
      var later, rest := Emptied(hash, last);
      assert Underflows(hash, last, later, rest);
    }
    forall later, rest | Underflows(hash, last, later, rest)
      ensures Stranded(states, sections) > 0
    {
      ExcessIsKept(hash, later, rest);
    }
  }

  /** Such a run exists: one removal overtaken by the installation of an empty snapshot. */
  lemma RemovalOvertakenByInstall(hash: Hash, key: Key, binding: Binding)
    ensures exists states: seq<State>, sections: seq<Section> ::
              && IsRun(hash, states, sections) && Started(states[0]) && Stranded(states, sections) == 1
              && states[|sections|].len == -1
  {
    var states, sections := OvertakenSteps(hash, key, binding);
    StrandedByInstall(states, sections);
  }

  lemma OvertakenSteps(hash: Hash, key: Key, binding: Binding) returns (states: seq<State>, sections: seq<Section>)
    ensures IsRun(hash, states, sections) && |sections| == 4 && sections[2].Replace? && sections[3].Settle?
    ensures Started(states[0]) && states[2].inFlight == 1 && states[4].len == -1
  {
    var emptied: seq<Table> := [map[]];
    EmptyShards(hash, emptied);
    var s0 := State(emptied, map[], 0, 0);
    var s1 := Step(hash, s0, Insert(key, binding));
    var s2 := Step(hash, s1, Take(key));
    var s3 := Step(hash, s2, Replace(emptied, map[]));
    var s4 := Step(hash, s3, Settle);
    states, sections := [s0, s1, s2, s3, s4], [Insert(key, binding), Take(key), Replace(emptied, map[]), Settle];
  }

  lemma StrandedByInstall(states: seq<State>, sections: seq<Section>)
    requires |states| == 5 && |sections| == 4 && sections[2].Replace? && !sections[3].Replace?
    ensures Stranded(states, sections) == states[2].inFlight
  {
    assert states[..4][..3] == states[..3] && sections[..3][..2] == sections[..2];
    assert sections[..3][2] == sections[2];
  }
}
