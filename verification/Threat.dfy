/**
 The threat-intelligence index: feed prefixes are normalised, deduplicated, sorted and merged into the
 range vectors that user space searches.  Merging is the normalisation of `Ranges` with a single tag.
 */
module Threat {
  import opened Wrappers
  import opened Bits
  import opened Ranges
  import opened GeoIndex

  const UNTAGGED: nat := 0

  datatype ThreatIpPrefix = ThreatIpPrefix(addr: IpAddr, prefix: nat) {
    predicate Valid() {
      addr.Valid() && prefix <= Width(addr.family)
    }

    function Line(): CidrLine {
      CidrLine(addr, prefix, UNTAGGED)
    }
  }

  datatype ThreatSnapshot = ThreatSnapshot(createdAt: nat, prefixes: seq<ThreatIpPrefix>, ipv4: seq<Range>, ipv6: seq<Range>) {
    function Of(family: Family): seq<Range> {
      match family
      case Inet => ipv4
      case Inet6 => ipv6
    }
  }

  predicate AllValid(ps: seq<ThreatIpPrefix>) {
    forall i | 0 <= i < |ps| :: ps[i].Valid()
  }

  function NormalizePrefix(p: ThreatIpPrefix): ThreatIpPrefix
    requires p.Valid()
  {
    p.(addr := p.addr.(value := ClearLow(p.addr.value, Width(p.addr.family) - p.prefix)))
  }

  /** The sort key of the source: IPv4 before IPv6, then the address, then the prefix length. */
  predicate Before(a: ThreatIpPrefix, b: ThreatIpPrefix) {
    || (a.addr.family.Inet? && b.addr.family.Inet6?)
    || (a.addr.family == b.addr.family
        && (a.addr.value < b.addr.value || (a.addr.value == b.addr.value && a.prefix < b.prefix)))
  }

  predicate StrictlySorted(ps: seq<ThreatIpPrefix>) {
    forall i, j | 0 <= i < j < |ps| :: Before(ps[i], ps[j])
  }

  function InsertUnique(p: ThreatIpPrefix, ps: seq<ThreatIpPrefix>): (out: seq<ThreatIpPrefix>)
    requires StrictlySorted(ps)
    ensures StrictlySorted(out)
    ensures forall x :: x in out <==> x == p || x in ps
  {
    if ps == [] then [p]
    else if p == ps[0] then ps
    else if Before(p, ps[0]) then [p] + ps
    else
      var tail := InsertUnique(p, ps[1..]);
      assert forall j | 0 <= j < |tail| :: tail[j] in tail && Before(ps[0], tail[j]);
      assert forall x :: x in ps <==> x == ps[0] || x in ps[1..];
      [ps[0]] + tail
  }

  /** The prefixes without duplicates, in key order. */
  function SortUnique(ps: seq<ThreatIpPrefix>): (out: seq<ThreatIpPrefix>)
    ensures StrictlySorted(out)
    ensures forall x :: x in out <==> x in ps
  {
    if ps == [] then []
    else
      assert forall x :: x in ps <==> x == ps[0] || x in ps[1..];
      InsertUnique(ps[0], SortUnique(ps[1..]))
  }

  function NormalizeAll(ps: seq<ThreatIpPrefix>): (out: seq<ThreatIpPrefix>)
    requires AllValid(ps)
    ensures |out| == |ps| && forall i | 0 <= i < |ps| :: out[i] == NormalizePrefix(ps[i])
  {
    if ps == [] then [] else NormalizeAll(ps[..|ps| - 1]) + [NormalizePrefix(ps[|ps| - 1])]
  }

  function Lines(ps: seq<ThreatIpPrefix>): (out: seq<CidrLine>)
    ensures |out| == |ps| && forall i | 0 <= i < |ps| :: out[i] == ps[i].Line()
  {
    if ps == [] then [] else Lines(ps[..|ps| - 1]) + [ps[|ps| - 1].Line()]
  }

  function Merged(ps: seq<ThreatIpPrefix>, family: Family): seq<Range> {
    Normalized(RangesOf(Lines(ps), family), MaxAddr(family))
  }

  function BuildThreatSnapshot(ps: seq<ThreatIpPrefix>, now: nat): ThreatSnapshot
    requires AllValid(ps)
  {
    var prefixes := SortUnique(NormalizeAll(ps));
    ThreatSnapshot(now, prefixes, Merged(prefixes, Inet), Merged(prefixes, Inet6))
  }

  method BuildSnapshotFrom(ps: seq<ThreatIpPrefix>, now: nat) returns (s: ThreatSnapshot)
    requires AllValid(ps)
    ensures s == BuildThreatSnapshot(ps, now) && s.createdAt == now
  {
    var unique: set<ThreatIpPrefix> := {};
    var normalized: seq<ThreatIpPrefix> := [];
    var i := 0;
    while i < |ps|
      invariant 0 <= i <= |ps|
      invariant forall x :: x in unique <==> x in normalized
      invariant forall x :: x in normalized <==> x in NormalizeAll(ps[..i])
    {
      assert ps[..i + 1][..i] == ps[..i];
      var p := NormalizePrefix(ps[i]);
      if p !in unique {
        unique := unique + {p};
        normalized := normalized + [p];
      }
      i := i + 1;
    }
    assert ps[..i] == ps;
    normalized := SortUnique(normalized);
    SortedIsUnique(normalized, SortUnique(NormalizeAll(ps)));
    var _, ipv4, ipv6 := AppendRanges(Lines(normalized));
    NormalizedAreValid(ps);
    ipv4 := NormalizeRanges(ipv4, MaxAddr(Inet));
    ipv6 := NormalizeRanges(ipv6, MaxAddr(Inet6));
    s := ThreatSnapshot(now, normalized, ipv4, ipv6);
  }

  /** A strictly sorted list is determined by its elements. */
  lemma {:induction false} SortedIsUnique(a: seq<ThreatIpPrefix>, b: seq<ThreatIpPrefix>)
    requires StrictlySorted(a) && StrictlySorted(b) && forall x :: x in a <==> x in b
    ensures a == b
  {
    assert a != [] ==> a[0] in b;
    assert b != [] ==> b[0] in a;
    if a != [] && b != [] {
      assert a[0] == b[0];
      forall x
        ensures x in a[1..] <==> x in b[1..]
      {
        TailElements(a, x);
        TailElements(b, x);
      }
      SortedIsUnique(a[1..], b[1..]);
    }
  }

  lemma TailElements(a: seq<ThreatIpPrefix>, x: ThreatIpPrefix)
    requires a != [] && StrictlySorted(a)
    ensures x in a[1..] <==> x in a && x != a[0]
  {
    assert a == [a[0]] + a[1..];
  }

  lemma NormalizedIsValid(p: ThreatIpPrefix, ip: IpAddr)
    requires p.Valid()
    ensures NormalizePrefix(p).Valid() && NormalizePrefix(NormalizePrefix(p)) == NormalizePrefix(p)
    ensures InCidr(ip, NormalizePrefix(p).Line()) <==> InCidr(ip, p.Line())
  {
    var h := Width(p.addr.family) - p.prefix;
    PrefixBlock(p.addr.value, p.addr.value, h);
    var network := ClearLow(p.addr.value, h);
    AlignedIsCleared(network, h);
    PrefixBlock(p.addr.value, network, h);
  }

  /** A normalised prefix begins where its block does, at a multiple of the block's 2^`h` addresses. */
  lemma NormalizedIsNetwork(p: ThreatIpPrefix, h: nat, size: nat)
    requires p.Valid() && h == Width(p.addr.family) - p.prefix && size == Pow2(h)
    ensures size > 0
    ensures NormalizePrefix(p).addr.value == p.addr.value / size * size
    ensures NormalizePrefix(p).addr.family == p.addr.family && NormalizePrefix(p).prefix == p.prefix
  {
    BitsAreDivision(p.addr.value, h);
  }

  lemma NormalizedAreValid(ps: seq<ThreatIpPrefix>)
    requires AllValid(ps)
    ensures var out := SortUnique(NormalizeAll(ps)); AllValid(out) && ValidLines(Lines(out)) && AllParse(Lines(out))
  {
    var all := NormalizeAll(ps);
    forall i | 0 <= i < |ps|
      ensures all[i].Valid()
    {
      NormalizedIsValid(ps[i], ps[i].addr);
    }
    var out := SortUnique(all);
    forall i | 0 <= i < |out|
      ensures out[i].Valid()
    {
      assert out[i] in all;
    }
  }

  /** A snapshot lists the networks of the feed's prefixes, each once: IPv4 first, by address, then by prefix length. */
  lemma SnapshotPrefixes(ps: seq<ThreatIpPrefix>, now: nat)
    requires AllValid(ps)
    ensures var out := BuildThreatSnapshot(ps, now).prefixes;
            && (forall x :: x in out <==> exists i :: 0 <= i < |ps| && x == NormalizePrefix(ps[i]))
            && forall i, j | 0 <= i < j < |out| ::
                 var (a, b) := (out[i].addr, out[j].addr);
                 || (a.family == Inet && b.family == Inet6)
                 || (a.family == b.family && a.value < b.value)
                 || (a == b && out[i].prefix < out[j].prefix)
  {
    var all := NormalizeAll(ps);
    forall x
      ensures x in SortUnique(all) <==> exists i :: 0 <= i < |ps| && x == NormalizePrefix(ps[i])
    {
      if x in all {
        var i :| 0 <= i < |all| && all[i] == x;
        assert x == NormalizePrefix(ps[i]);
      }
    }
  }

  // ----- membership

  /** Some prefix of the feed contains the address. */
  ghost predicate Fed(ps: seq<ThreatIpPrefix>, ip: IpAddr) {
    exists i :: 0 <= i < |ps| && InCidr(ip, ps[i].Line())
  }

  lemma FedNormalized(ps: seq<ThreatIpPrefix>, ip: IpAddr)
    requires AllValid(ps)
    ensures Fed(SortUnique(NormalizeAll(ps)), ip) <==> Fed(ps, ip)
  {
    var all := NormalizeAll(ps);
    var out := SortUnique(all);
    forall i | 0 <= i < |ps|
      ensures InCidr(ip, all[i].Line()) <==> InCidr(ip, ps[i].Line())
    {
      NormalizedIsValid(ps[i], ip);
    }
    if Fed(ps, ip) {
      var i :| 0 <= i < |ps| && InCidr(ip, ps[i].Line());
      assert all[i] in all;
      assert all[i] in out;
      var j :| 0 <= j < |out| && out[j] == all[i];
    }
    if Fed(out, ip) {
      var j :| 0 <= j < |out| && InCidr(ip, out[j].Line());
      assert out[j] in out;
      assert out[j] in all;
      var i :| 0 <= i < |all| && all[i] == out[j];
    }
  }

  function Contains(s: ThreatSnapshot, ip: IpAddr): bool {
    FindCountry(s.Of(ip.family), ip.value).Some?
  }

  method LookupThreat(s: ThreatSnapshot, ip: IpAddr) returns (found: bool)
    requires Separated(s.Of(ip.family)) && AllInSpace(s.Of(ip.family), MaxAddr(ip.family))
    ensures found == Contains(s, ip)
  {
    var hit;
    match ip.family {
      case Inet => hit := Lookup(s.ipv4, MaxAddr(Inet), ip.value);
      case Inet6 => hit := Lookup(s.ipv6, MaxAddr(Inet6), ip.value);
    }
    found := hit.Some?;
  }

  lemma {:induction false} RangesAreUntagged(ps: seq<ThreatIpPrefix>, family: Family)
    ensures forall i | 0 <= i < |RangesOf(Lines(ps), family)| :: RangesOf(Lines(ps), family)[i].country == UNTAGGED
  {
    if ps != [] {
      var init := ps[..|ps| - 1];
      RangesAreUntagged(init, family);
      assert Lines(ps)[..|ps| - 1] == Lines(init);
    }
  }

  /** A lookup hits if and only if some prefix of the feed contains the address. */
  lemma ContainsIffFed(ps: seq<ThreatIpPrefix>, now: nat, ip: IpAddr)
    requires AllValid(ps) && ip.Valid()
    ensures Contains(BuildThreatSnapshot(ps, now), ip) <==> Fed(ps, ip)
  {
    CoversIffFed(ps, ip.family, ip.value);
    var rs := Merged(SortUnique(NormalizeAll(ps)), ip.family);
    if Contains(BuildThreatSnapshot(ps, now), ip) {
      var c := FindCountry(rs, ip.value).value;
      var i :| 0 <= i < |rs| && rs[i].country == c && rs[i].Has(ip.value);
    }
  }

  // ----- the merged vectors are canonical

  ghost predicate Covers(rs: seq<Range>, x: nat) {
    exists i :: 0 <= i < |rs| && rs[i].Has(x)
  }

  /** Sorted, disjoint, and with at least one address between neighbours. */
  predicate Canonical(rs: seq<Range>) {
    && (forall i | 0 <= i < |rs| :: rs[i].start <= rs[i].end && rs[i].country == UNTAGGED)
    && forall i, j | 0 <= i < j < |rs| :: rs[i].end + 1 < rs[j].start
  }

  lemma CanonicalMergeInto(acc: seq<Range>, r: Range, max: nat)
    requires Canonical(acc) && AllInSpace(acc, max) && r.InSpace(max) && r.country == UNTAGGED
    requires acc != [] ==> acc[|acc| - 1].start <= r.start
    ensures Canonical(MergeInto(acc, r, max)) && AllInSpace(MergeInto(acc, r, max), max)
    ensures MergeInto(acc, r, max) != [] && MergeInto(acc, r, max)[|MergeInto(acc, r, max)| - 1].start <= r.start
  {
    var out, n := MergeInto(acc, r, max), |acc|;
    assert forall i | 0 <= i < |out| - 1 :: out[i] == acc[i];
    forall i, j | 0 <= i < j < |out|
      ensures out[i].end + 1 < out[j].start
    {
      if i < j < n {
        assert acc[i].end + 1 < acc[j].start;
      } else if i < n - 1 {
        assert acc[i].end + 1 < acc[n - 1].start;
      }
    }
  }

  lemma {:induction false} CanonicalMergeAll(rs: seq<Range>, max: nat)
    requires Sorted(rs) && AllInSpace(rs, max) && forall i | 0 <= i < |rs| :: rs[i].country == UNTAGGED
    ensures var out := MergeAll(rs, max);
            Canonical(out) && AllInSpace(out, max)
            && (out != [] ==> rs != [] && out[|out| - 1].start <= rs[|rs| - 1].start)
  {
    if rs != [] {
      var init, r := rs[..|rs| - 1], rs[|rs| - 1];
      InitOfSorted(rs, max);
      CanonicalMergeAll(init, max);
      var merged := MergeAll(init, max);
      assert merged != [] ==> merged[|merged| - 1].start <= r.start;
      CanonicalMergeInto(merged, r, max);
      assert MergeAll(rs, max) == MergeInto(merged, r, max);
    }
  }

  lemma MergedIsCanonical(ps: seq<ThreatIpPrefix>, family: Family)
    requires AllValid(ps)
    ensures Canonical(Merged(SortUnique(NormalizeAll(ps)), family))
  {
    var out := SortUnique(NormalizeAll(ps));
    var rs := RangesOf(Lines(out), family);
    NormalizedAreValid(ps);
    RangesClaimListed(Lines(out), UNTAGGED, IpAddr(family, 0));
    RangesAreUntagged(out, family);
    SortKeepsSpace(rs, MaxAddr(family));
    forall i | 0 <= i < |rs|
      ensures Sort(rs)[i].country == UNTAGGED
    {
      assert Sort(rs)[i] in rs;
    }
    CanonicalMergeAll(Sort(rs), MaxAddr(family));
  }

  /** Canonical vectors with the same addresses are the same vector. */
  lemma {:induction false} CanonicalIsUnique(a: seq<Range>, b: seq<Range>)
    requires Canonical(a) && Canonical(b) && forall x: nat :: Covers(a, x) <==> Covers(b, x)
    ensures a == b
  {
    assert a != [] ==> a[0].Has(a[0].start) && Covers(a, a[0].start);
    assert b != [] ==> b[0].Has(b[0].start) && Covers(b, b[0].start);
    if a != [] && b != [] {
      SameFirst(a, b);
      forall x: nat
        ensures Covers(a[1..], x) <==> Covers(b[1..], x)
      {
        CoversTail(a, x);
        CoversTail(b, x);
      }
      CanonicalIsUnique(a[1..], b[1..]);
    }
  }

  lemma CoversTail(a: seq<Range>, x: nat)
    requires a != [] && Canonical(a)
    ensures Covers(a[1..], x) <==> Covers(a, x) && x > a[0].end
  {
    if Covers(a, x) && x > a[0].end {
      var i :| 0 <= i < |a| && a[i].Has(x);
      assert a[1..][i - 1].Has(x);
    }
    if Covers(a[1..], x) {
      var i :| 0 <= i < |a[1..]| && a[1..][i].Has(x);
      assert a[i + 1].Has(x);
    }
  }

  lemma SameFirst(a: seq<Range>, b: seq<Range>)
    requires a != [] && b != [] && Canonical(a) && Canonical(b) && forall x: nat :: Covers(a, x) <==> Covers(b, x)
    ensures a[0] == b[0]
  {
    FirstStarts(a, b);
    FirstStarts(b, a);
    FirstEnds(a, b);
    FirstEnds(b, a);
  }

  lemma FirstStarts(a: seq<Range>, b: seq<Range>)
    requires a != [] && b != [] && Canonical(a) && Canonical(b) && forall x: nat :: Covers(a, x) ==> Covers(b, x)
    ensures b[0].start <= a[0].start
  {
    assert a[0].Has(a[0].start) && Covers(a, a[0].start);
    var i :| 0 <= i < |b| && b[i].Has(a[0].start);
  }

  lemma GapAfterFirst(a: seq<Range>)
    requires a != [] && Canonical(a)
    ensures !Covers(a, a[0].end + 1)
  {
    forall i | 0 <= i < |a|
      ensures !a[i].Has(a[0].end + 1)
    {
    }
  }

  lemma FirstEnds(a: seq<Range>, b: seq<Range>)
    requires a != [] && b != [] && Canonical(a) && Canonical(b) && forall x: nat :: Covers(b, x) ==> Covers(a, x)
    requires a[0].start == b[0].start
    ensures b[0].end <= a[0].end
  {
    var x := a[0].end + 1;
    assert b[0].Has(x) ==> Covers(b, x);
    GapAfterFirst(a);
  }

  /** The merged vector of a family covers exactly the fed addresses, and nothing above the address space. */
  lemma CoversIffFed(ps: seq<ThreatIpPrefix>, family: Family, x: nat)
    requires AllValid(ps)
    ensures Covers(Merged(SortUnique(NormalizeAll(ps)), family), x)
            <==> x <= MaxAddr(family) && Fed(ps, IpAddr(family, x))
  {
    var out := SortUnique(NormalizeAll(ps));
    var rs := Merged(out, family);
    NormalizedAreValid(ps);
    MergedIsCanonical(ps, family);
    SnapshotClaimsListed(Lines(out), UNTAGGED, IpAddr(family, 0));
    if x <= MaxAddr(family) {
      var ip := IpAddr(family, x);
      SnapshotClaimsListed(Lines(out), UNTAGGED, ip);
      assert Listed(Lines(out), UNTAGGED, ip) <==> Fed(out, ip);
      FedNormalized(ps, ip);
      if Covers(rs, x) {
        var i :| 0 <= i < |rs| && rs[i].Has(x);
        assert rs[i].country == UNTAGGED;
      }
    }
  }

  /**
   Canonical form: two feeds that cover the same addresses produce identical merged vectors, whatever
   the order, duplication or splitting of their prefixes.
   */
  lemma SameCoverageSameVectors(ps: seq<ThreatIpPrefix>, qs: seq<ThreatIpPrefix>, now: nat, later: nat)
    requires AllValid(ps) && AllValid(qs)
    requires forall ip: IpAddr | ip.Valid() :: Fed(ps, ip) <==> Fed(qs, ip)
    ensures BuildThreatSnapshot(ps, now).ipv4 == BuildThreatSnapshot(qs, later).ipv4
    ensures BuildThreatSnapshot(ps, now).ipv6 == BuildThreatSnapshot(qs, later).ipv6
  {
    SameVector(ps, qs, Inet);
    SameVector(ps, qs, Inet6);
  }

  lemma SameVector(ps: seq<ThreatIpPrefix>, qs: seq<ThreatIpPrefix>, family: Family)
    requires AllValid(ps) && AllValid(qs)
    requires forall ip: IpAddr | ip.Valid() :: Fed(ps, ip) <==> Fed(qs, ip)
    ensures Merged(SortUnique(NormalizeAll(ps)), family) == Merged(SortUnique(NormalizeAll(qs)), family)
  {
    var a, b := Merged(SortUnique(NormalizeAll(ps)), family), Merged(SortUnique(NormalizeAll(qs)), family);
    forall x: nat
      ensures Covers(a, x) <==> Covers(b, x)
    {
      CoversIffFed(ps, family, x);
      CoversIffFed(qs, family, x);
      if x <= MaxAddr(family) {
        assert IpAddr(family, x).Valid();
      }
    }
    MergedIsCanonical(ps, family);
    MergedIsCanonical(qs, family);
    CanonicalIsUnique(a, b);
  }

  /** Building from a snapshot's own prefixes gives the snapshot again. */
  lemma RebuildIsIdentity(ps: seq<ThreatIpPrefix>, now: nat)
    requires AllValid(ps)
    ensures AllValid(BuildThreatSnapshot(ps, now).prefixes)
    ensures BuildThreatSnapshot(BuildThreatSnapshot(ps, now).prefixes, now) == BuildThreatSnapshot(ps, now)
  {
    var all := NormalizeAll(ps);
    var out := SortUnique(all);
    NormalizedAreValid(ps);
    var again := NormalizeAll(out);
    forall i | 0 <= i < |out|
      ensures again[i] == out[i]
    {
      assert out[i] in all;
      var j :| 0 <= j < |all| && all[j] == out[i];
      NormalizedIsValid(ps[j], ps[j].addr);
    }
    assert again == out;
    SortedIsUnique(SortUnique(again), out);
  }
}
