/**
 The country index from end to end: CIDR lines become ranges, ranges are normalised, validated and
 searched in user space, and decomposed into prefixes for the kernel's longest-prefix match.
 */
module GeoIndex {
  import opened Wrappers
  import opened Bits
  import opened Decomposition
  import opened Ranges

  datatype Family = Inet | Inet6

  function Width(family: Family): nat {
    match family
    case Inet => 32
    case Inet6 => 128
  }

  function MaxAddr(family: Family): U128 {
    match family
    case Inet => 0xFFFF_FFFF
    case Inet6 => U128_MAX
  }

  datatype IpAddr = IpAddr(family: Family, value: nat) {
    predicate Valid() {
      value <= MaxAddr(family)
    }
  }

  /** One line of a country's list; a bare address comes with the full prefix length. */
  datatype CidrLine = CidrLine(addr: IpAddr, prefix: nat, country: nat)

  datatype GeoSnapshot = GeoSnapshot(createdAt: nat, ipv4: seq<Range>, ipv6: seq<Range>) {
    function Of(family: Family): seq<Range> {
      match family
      case Inet => ipv4
      case Inet6 => ipv6
    }
  }

  lemma MaxAddrIsPow2(family: Family)
    ensures MaxAddr(family) == Pow2(Width(family)) - 1
  {
    var bits := Width(family);
    WidthOf(bits);
  }

  // ----- one CIDR

  /** Section 3.1 of RFC 4632: an address matches when it agrees with the prefix on its leading bits. */
  predicate InCidr(ip: IpAddr, line: CidrLine) {
    var h := Width(ip.family) - line.prefix;
    ip.family == line.addr.family && h >= 0 && Shr(ip.value, h) == Shr(line.addr.value, h)
  }

  /** The masks of the source, on numbers. */
  function CidrRange(addr: IpAddr, prefix: nat): Result<(nat, nat)> {
    if prefix > Width(addr.family) then Err("prefix too long")
    else if prefix == 0 then Ok((0, MaxAddr(addr.family)))
    else
      var start := ClearLow(addr.value, Width(addr.family) - prefix);
      Ok((start, start + (Pow2(Width(addr.family) - prefix) - 1)))
  }

  lemma {:induction false} ShrToZero(x: nat, h: nat)
    requires x < Pow2(h)
    ensures Shr(x, h) == 0
  {
    if h > 0 {
      ShrToZero(x / 2, h - 1);
    }
  }

  /** The range of a CIDR lies in the address space and holds exactly the matching addresses. */
  lemma CidrRangeIsExact(line: CidrLine, ip: IpAddr)
    requires line.addr.Valid() && ip.Valid() && ip.family == line.addr.family
    requires CidrRange(line.addr, line.prefix).Ok?
    ensures var (start, end) := CidrRange(line.addr, line.prefix).value;
            start <= end <= MaxAddr(ip.family) && (start <= ip.value <= end <==> InCidr(ip, line))
  {
    var bits := Width(ip.family);
    var h := bits - line.prefix;
    MaxAddrIsPow2(ip.family);
    PrefixBlock(line.addr.value, ip.value, h);
    AlignedFits(ClearLow(line.addr.value, h), h, bits);
    if line.prefix == 0 {
      ShrToZero(line.addr.value, bits);
      ShrToZero(ip.value, bits);
    }
  }

  /** The longest prefixes hold one address, the empty one holds all, and a longer one is an error. */
  lemma CidrEnds(v: nat, prefix: nat)
    requires v <= U128_MAX
    ensures CidrRange(IpAddr(Inet, v), 0) == Ok((0, 0xFFFF_FFFF)) && CidrRange(IpAddr(Inet6, v), 0) == Ok((0, U128_MAX))
    ensures CidrRange(IpAddr(Inet, v), 32) == Ok((v, v)) && CidrRange(IpAddr(Inet6, v), 128) == Ok((v, v))
    ensures CidrRange(IpAddr(Inet, v), prefix).Err? <==> prefix > 32
    ensures CidrRange(IpAddr(Inet6, v), prefix).Err? <==> prefix > 128
  {
  }

  /**
   In numbers: an address matches a CIDR when both have the same quotient by the block size, and the CIDR's range
   is that block.
   */
  lemma CidrIsBlock(line: CidrLine, ip: IpAddr)
    requires line.addr.Valid() && ip.family == line.addr.family && line.prefix <= Width(ip.family)
    ensures var size := Pow2(Width(ip.family) - line.prefix);
            var block := line.addr.value / size;
            && (InCidr(ip, line) <==> ip.value / size == block)
            && CidrRange(line.addr, line.prefix) == Ok((block * size, block * size + size - 1))
  {
    var bits := Width(ip.family);
    var h := bits - line.prefix;
    BitsAreDivision(ip.value, h);
    BitsAreDivision(line.addr.value, h);
    if line.prefix == 0 {
      MaxAddrIsPow2(ip.family);
      ShrToZero(line.addr.value, bits);
    }
  }

  // ----- building the snapshot

  predicate ValidLines(lines: seq<CidrLine>) {
    forall i | 0 <= i < |lines| :: lines[i].addr.Valid()
  }

  predicate AllParse(lines: seq<CidrLine>) {
    forall i | 0 <= i < |lines| :: lines[i].prefix <= Width(lines[i].addr.family)
  }

  /** The ranges pushed for one address family. */
  function RangesOf(lines: seq<CidrLine>, family: Family): seq<Range> {
    if lines == [] then []
    else
      var init, line := RangesOf(lines[..|lines| - 1], family), lines[|lines| - 1];
      var r := CidrRange(line.addr, line.prefix);
      if line.addr.family == family && r.Ok? then init + [Range(r.value.0, r.value.1, line.country)] else init
  }

  function BuildSnapshot(lines: seq<CidrLine>, now: nat): Result<GeoSnapshot> {
    var ipv4 := Normalized(RangesOf(lines, Inet), MaxAddr(Inet));
    var ipv6 := Normalized(RangesOf(lines, Inet6), MaxAddr(Inet6));
    if !AllParse(lines) then Err("invalid prefix")
    else if !Separated(ipv4) || !Separated(ipv6) then Err("overlapping ranges")
    else Ok(GeoSnapshot(now, ipv4, ipv6))
  }

  method AppendRanges(lines: seq<CidrLine>) returns (ok: bool, ipv4: seq<Range>, ipv6: seq<Range>)
    ensures ok <==> AllParse(lines)
    ensures ok ==> ipv4 == RangesOf(lines, Inet) && ipv6 == RangesOf(lines, Inet6)
  {
    ipv4, ipv6 := [], [];
    var i := 0;
    while i < |lines|
      invariant 0 <= i <= |lines|
      invariant AllParse(lines[..i])
      invariant ipv4 == RangesOf(lines[..i], Inet) && ipv6 == RangesOf(lines[..i], Inet6)
    {
      assert lines[..i + 1][..i] == lines[..i];
      var line := lines[i];
      var r := CidrRange(line.addr, line.prefix);
      match r {
        case Err(_) => return false, ipv4, ipv6;
        case Ok(bounds) =>
          match line.addr.family {
            case Inet => ipv4 := ipv4 + [Range(bounds.0, bounds.1, line.country)];
            case Inet6 => ipv6 := ipv6 + [Range(bounds.0, bounds.1, line.country)];
          }
      }
      i := i + 1;
    }
    assert lines[..i] == lines;
    ok := true;
  }

  method FetchGeoSnapshot(lines: seq<CidrLine>, now: nat) returns (r: Result<GeoSnapshot>)
    ensures r.Ok? <==> BuildSnapshot(lines, now).Ok?
    ensures r.Ok? ==> r == BuildSnapshot(lines, now) && r.value.createdAt == now
  {
    var ok, v4, v6 := AppendRanges(lines);
    if !ok {
      return Err("invalid prefix");
    }
    v4 := NormalizeRanges(v4, MaxAddr(Inet));
    v6 := NormalizeRanges(v6, MaxAddr(Inet6));
    var ok4 := ValidateNonOverlapping(v4);
    if !ok4 {
      return Err("geo IPv4 cache contains overlapping ranges");
    }
    var ok6 := ValidateNonOverlapping(v6);
    if !ok6 {
      return Err("geo IPv6 cache contains overlapping ranges");
    }
    return Ok(GeoSnapshot(now, v4, v6));
  }

  // ----- what the snapshot claims

  /** Some line contains the address, and it is a line of that country. */
  ghost predicate Listed(lines: seq<CidrLine>, country: nat, ip: IpAddr) {
    exists i :: 0 <= i < |lines| && lines[i].country == country && InCidr(ip, lines[i])
  }

  ghost predicate NoDisputedAddress(lines: seq<CidrLine>) {
    forall ip: IpAddr, c: nat, d: nat | ip.Valid() && Listed(lines, c, ip) && Listed(lines, d, ip) :: c == d
  }

  lemma ListedAppend(init: seq<CidrLine>, line: CidrLine, country: nat, ip: IpAddr)
    ensures Listed(init + [line], country, ip) <==> Listed(init, country, ip) || (line.country == country && InCidr(ip, line))
  {
    var all := init + [line];
    assert all[|init|] == line;
    assert forall i | 0 <= i < |init| :: all[i] == init[i];
  }

  /** The pushed ranges claim exactly the listed addresses. */
  lemma {:induction false} RangesClaimListed(lines: seq<CidrLine>, country: nat, ip: IpAddr)
    requires ValidLines(lines) && AllParse(lines) && ip.Valid()
    ensures Claims(RangesOf(lines, ip.family), country, ip.value) <==> Listed(lines, country, ip)
    ensures AllInSpace(RangesOf(lines, ip.family), MaxAddr(ip.family))
  {
    if lines != [] {
      var init, line := lines[..|lines| - 1], lines[|lines| - 1];
      RangesClaimListed(init, country, ip);
      assert lines == init + [line];
      ListedAppend(init, line, country, ip);
      var r := CidrRange(line.addr, line.prefix);
      if line.addr.family == ip.family {
        CidrRangeIsExact(line, ip);
        ClaimsAppend(RangesOf(init, ip.family), Range(r.value.0, r.value.1, line.country), country, ip.value);
      }
    }
  }

  lemma SnapshotClaimsListed(lines: seq<CidrLine>, country: nat, ip: IpAddr)
    requires ValidLines(lines) && AllParse(lines) && ip.Valid()
    ensures var rs := Normalized(RangesOf(lines, ip.family), MaxAddr(ip.family));
            AllInSpace(rs, MaxAddr(ip.family)) && (Claims(rs, country, ip.value) <==> Listed(lines, country, ip))
  {
    RangesClaimListed(lines, country, ip);
    NormalizationIsExact(RangesOf(lines, ip.family), MaxAddr(ip.family), country, ip.value);
  }

  /** Every snapshot that was built meets what the binary search and the decomposition ask of it. */
  lemma BuiltSnapshotIsSearchable(lines: seq<CidrLine>, now: nat, family: Family)
    requires ValidLines(lines) && BuildSnapshot(lines, now).Ok?
    ensures var rs := BuildSnapshot(lines, now).value.Of(family);
            Separated(rs) && AllInSpace(rs, MaxAddr(family))
  {
    SnapshotClaimsListed(lines, 0, IpAddr(family, 0));
  }

  /** Ranges are in the address space, so a shared address of two ranges is an address. */
  lemma NoConflictIffUndisputed(lines: seq<CidrLine>, family: Family)
    requires ValidLines(lines) && AllParse(lines)
    ensures NoConflict(RangesOf(lines, family))
            <==> forall ip: IpAddr, c: nat, d: nat | ip.Valid() && ip.family == family
                   && Listed(lines, c, ip) && Listed(lines, d, ip) :: c == d
  {
    var rs := RangesOf(lines, family);
    if NoConflict(rs) {
      forall ip: IpAddr, c: nat, d: nat | ip.Valid() && ip.family == family && Listed(lines, c, ip) && Listed(lines, d, ip)
        ensures c == d
      {
        RangesClaimListed(lines, c, ip);
        RangesClaimListed(lines, d, ip);
      }
    }
    if forall ip: IpAddr, c: nat, d: nat | ip.Valid() && ip.family == family
         && Listed(lines, c, ip) && Listed(lines, d, ip) :: c == d {
      forall i, j, x: nat | 0 <= i < |rs| && 0 <= j < |rs| && rs[i].Has(x) && rs[j].Has(x)
        ensures rs[i].country == rs[j].country
      {
        RangesClaimListed(lines, 0, IpAddr(family, 0));
        var ip := IpAddr(family, x);
        RangesClaimListed(lines, rs[i].country, ip);
        RangesClaimListed(lines, rs[j].country, ip);
        assert Claims(rs, rs[i].country, x) && Claims(rs, rs[j].country, x);
      }
    }
  }

  /** A snapshot is built exactly when every prefix fits its family and no address is listed for two countries. */
  lemma BuiltIffUndisputed(lines: seq<CidrLine>, now: nat)
    requires ValidLines(lines)
    ensures BuildSnapshot(lines, now).Ok? <==>
              && (forall i | 0 <= i < |lines| :: lines[i].prefix <= if lines[i].addr.family.Inet? then 32 else 128)
              && NoDisputedAddress(lines)
  {
    if AllParse(lines) {
      forall family: Family
        ensures Separated(Normalized(RangesOf(lines, family), MaxAddr(family))) <==> NoConflict(RangesOf(lines, family))
      {
        RangesClaimListed(lines, 0, IpAddr(family, 0));
        ValidIffNoConflict(RangesOf(lines, family), MaxAddr(family));
      }
      NoConflictIffUndisputed(lines, Inet);
      NoConflictIffUndisputed(lines, Inet6);
    }
  }

  // ----- the kernel's prefixes

  function XdpOf(rs: seq<Range>, bits: nat): seq<GeoIpPrefix> {
    if rs == [] then []
    else
      var last := rs[|rs| - 1];
      XdpOf(rs[..|rs| - 1], bits) + PrefixList(last.start, last.end, bits, last.country)
  }

  method AppendRange(rs: seq<Range>, bits: nat, max: U128, i: nat, prefixes: seq<GeoIpPrefix>, ghost base: seq<GeoIpPrefix>)
    returns (out: seq<GeoIpPrefix>)
    requires 0 < bits <= 128 && max == Pow2(bits) - 1 && AllInSpace(rs, max) && i < |rs|
    requires prefixes == base + XdpOf(rs[..i], bits)
    ensures out == base + XdpOf(rs[..i + 1], bits)
  {
    assert rs[..i + 1][..i] == rs[..i];
    assert rs[i].InSpace(max);
    out := AppendRangePrefixes(rs[i].start, rs[i].end, bits, rs[i].country, prefixes);
  }

  method AppendFamily(rs: seq<Range>, bits: nat, max: U128, prefixes: seq<GeoIpPrefix>) returns (out: seq<GeoIpPrefix>)
    requires 0 < bits <= 128 && max == Pow2(bits) - 1 && AllInSpace(rs, max)
    ensures out == prefixes + XdpOf(rs, bits)
  {
    out := prefixes;
    var i := 0;
    while i < |rs|
      invariant 0 <= i <= |rs|
      invariant out == prefixes + XdpOf(rs[..i], bits)
    {
      out := AppendRange(rs, bits, max, i, out, prefixes);
      i := i + 1;
    }
    assert rs[..i] == rs;
  }

  method XdpPrefixes(snapshot: GeoSnapshot) returns (prefixes: seq<GeoIpPrefix>)
    requires AllInSpace(snapshot.ipv4, MaxAddr(Inet)) && AllInSpace(snapshot.ipv6, MaxAddr(Inet6))
    ensures prefixes == XdpOf(snapshot.ipv4, Width(Inet)) + XdpOf(snapshot.ipv6, Width(Inet6))
  {
    MaxAddrIsPow2(Inet);
    MaxAddrIsPow2(Inet6);
    prefixes := AppendFamily(snapshot.ipv4, Width(Inet), MaxAddr(Inet), []);
    prefixes := AppendFamily(snapshot.ipv6, Width(Inet6), MaxAddr(Inet6), prefixes);
  }

  /** A trie entry matches an address of its family that agrees with it on the prefix. */
  predicate Matches(p: GeoIpPrefix, ip: IpAddr) {
    && p.bits == Width(ip.family) && 0 <= p.prefix <= p.bits
    && Shr(p.addr, p.bits - p.prefix) == Shr(ip.value, p.bits - p.prefix)
  }

  /** Longest-prefix match; of two entries with one key the later one was stored last. */
  function LongestMatch(ps: seq<GeoIpPrefix>, ip: IpAddr): (r: Option<GeoIpPrefix>)
    ensures r.Some? ==> r.value in ps && Matches(r.value, ip)
    ensures r.Some? ==> forall p | p in ps && Matches(p, ip) :: p.prefix <= r.value.prefix
    ensures r.None? ==> forall p | p in ps :: !Matches(p, ip)
  {
    if ps == [] then None
    else
      var rest := LongestMatch(ps[1..], ip);
      assert forall p :: p in ps <==> p == ps[0] || p in ps[1..];
      if Matches(ps[0], ip) && (rest.None? || ps[0].prefix > rest.value.prefix) then Some(ps[0]) else rest
  }

  /** A decomposed range: an entry matches exactly the addresses of its block. */
  lemma EntryIsItsBlock(start: nat, end: nat, bits: nat, country: nat, ip: IpAddr, i: nat)
    requires bits == Width(ip.family) && i < |PrefixList(start, end, bits, country)|
    ensures i < |Greedy(start, end, bits)|
    ensures var p := PrefixList(start, end, bits, country)[i];
            p.country == country && p.bits == bits && (Matches(p, ip) <==> Greedy(start, end, bits)[i].Has(ip.value))
  {
    PrefixListIsGreedy(start, end, bits, country);
    BlocksAreAligned(start, end, bits);
    var b := Greedy(start, end, bits)[i];
    AlignedIsCleared(b.start, b.h);
    PrefixBlock(b.start, ip.value, b.h);
  }

  lemma RangeMatches(r: Range, bits: nat, ip: IpAddr)
    requires bits == Width(ip.family)
    ensures (exists p :: p in PrefixList(r.start, r.end, bits, r.country) && Matches(p, ip)) <==> r.Has(ip.value)
    ensures forall p | p in PrefixList(r.start, r.end, bits, r.country) :: p.country == r.country && p.bits == bits
  {
    var ps, bs := PrefixList(r.start, r.end, bits, r.country), Greedy(r.start, r.end, bits);
    PrefixListIsGreedy(r.start, r.end, bits, r.country);
    forall i | 0 <= i < |ps|
      ensures ps[i].country == r.country && ps[i].bits == bits && (Matches(ps[i], ip) <==> bs[i].Has(ip.value))
    {
      EntryIsItsBlock(r.start, r.end, bits, r.country, ip, i);
    }
    CoversExactly(r.start, r.end, bits, ip.value);
    if r.Has(ip.value) {
      var i :| 0 <= i < |bs| && bs[i].Has(ip.value);
      assert ps[i] in ps;
    }
  }

  /** Among all entries of a family, one of a country matches exactly when a range of it has the address. */
  lemma {:induction false} XdpMatches(rs: seq<Range>, bits: nat, ip: IpAddr, country: nat)
    requires bits == Width(ip.family)
    ensures (exists p :: p in XdpOf(rs, bits) && p.country == country && Matches(p, ip)) <==> Claims(rs, country, ip.value)
  {
    if rs != [] {
      var init, last := rs[..|rs| - 1], rs[|rs| - 1];
      XdpMatches(init, bits, ip, country);
      RangeMatches(last, bits, ip);
      assert rs == init + [last];
      ClaimsAppend(init, last, country, ip.value);
    }
  }

  lemma {:induction false} OtherFamilyNeverMatches(rs: seq<Range>, bits: nat, ip: IpAddr)
    requires bits != Width(ip.family)
    ensures forall p | p in XdpOf(rs, bits) :: !Matches(p, ip)
  {
    if rs != [] {
      OtherFamilyNeverMatches(rs[..|rs| - 1], bits, ip);
      var last := rs[|rs| - 1];
      PrefixListIsGreedy(last.start, last.end, bits, last.country);
    }
  }

  // ----- the three lookups

  function LookupCountry(snapshot: GeoSnapshot, ip: IpAddr): Option<nat> {
    FindCountry(snapshot.Of(ip.family), ip.value)
  }

  method LookupInSnapshot(snapshot: GeoSnapshot, ip: IpAddr) returns (country: Option<nat>)
    requires Separated(snapshot.Of(ip.family)) && AllInSpace(snapshot.Of(ip.family), MaxAddr(ip.family))
    ensures country == LookupCountry(snapshot, ip)
  {
    match ip.family {
      case Inet => country := Lookup(snapshot.ipv4, MaxAddr(Inet), ip.value);
      case Inet6 => country := Lookup(snapshot.ipv6, MaxAddr(Inet6), ip.value);
    }
  }

  function KernelLookup(prefixes: seq<GeoIpPrefix>, ip: IpAddr): Option<nat> {
    var hit := LongestMatch(prefixes, ip);
    if hit.Some? then Some(hit.value.country) else None
  }

  /** The reference: the first line that contains the address. */
  function ScanLines(lines: seq<CidrLine>, ip: IpAddr): Option<nat> {
    if lines == [] then None
    else if InCidr(ip, lines[0]) then Some(lines[0].country)
    else ScanLines(lines[1..], ip)
  }

  lemma ListedCons(lines: seq<CidrLine>, country: nat, ip: IpAddr)
    requires lines != []
    ensures Listed(lines, country, ip)
            <==> Listed(lines[1..], country, ip) || (lines[0].country == country && InCidr(ip, lines[0]))
  {
    assert forall i | 0 <= i < |lines| - 1 :: lines[1..][i] == lines[i + 1];
    if Listed(lines, country, ip) {
      var i :| 0 <= i < |lines| && lines[i].country == country && InCidr(ip, lines[i]);
      if i > 0 {
        assert lines[1..][i - 1] == lines[i];
      }
    }
  }

  lemma {:induction false} ScanFindsListed(lines: seq<CidrLine>, ip: IpAddr)
    ensures var r := ScanLines(lines, ip);
            (r.Some? ==> Listed(lines, r.value, ip)) && (r.None? ==> forall c: nat :: !Listed(lines, c, ip))
  {
    if lines != [] {
      ScanFindsListed(lines[1..], ip);
      forall c: nat
        ensures Listed(lines, c, ip) <==> Listed(lines[1..], c, ip) || (lines[0].country == c && InCidr(ip, lines[0]))
      {
        ListedCons(lines, c, ip);
      }
    }
  }

  /** Whatever finds a listed country, and nothing when none is listed, agrees with the scan. */
  lemma AgreesWithScan(lines: seq<CidrLine>, ip: IpAddr, r: Option<nat>)
    requires ip.Valid() && NoDisputedAddress(lines)
    requires r.Some? ==> Listed(lines, r.value, ip)
    requires r.None? ==> forall c: nat :: !Listed(lines, c, ip)
    ensures r == ScanLines(lines, ip)
  {
    ScanFindsListed(lines, ip);
  }

  /**
   End-to-end agreement: on every snapshot that was built, and for every address, the user-space search,
   the kernel's longest-prefix match and a scan of the original lines give the same country, or all none.
   */
  lemma LookupsAgree(lines: seq<CidrLine>, now: nat, ip: IpAddr)
    requires ValidLines(lines) && ip.Valid() && BuildSnapshot(lines, now).Ok?
    ensures var s := BuildSnapshot(lines, now).value;
            && LookupCountry(s, ip) == ScanLines(lines, ip)
            && KernelLookup(XdpOf(s.ipv4, Width(Inet)) + XdpOf(s.ipv6, Width(Inet6)), ip) == ScanLines(lines, ip)
  {
    var s := BuildSnapshot(lines, now).value;
    var rs := s.Of(ip.family);
    BuiltIffUndisputed(lines, now);
    forall c: nat
      ensures Claims(rs, c, ip.value) <==> Listed(lines, c, ip)
    {
      SnapshotClaimsListed(lines, c, ip);
    }
    var found := LookupCountry(s, ip);
    AgreesWithScan(lines, ip, found);
    KernelFindsListed(lines, s, ip);
    AgreesWithScan(lines, ip, KernelLookup(XdpOf(s.ipv4, Width(Inet)) + XdpOf(s.ipv6, Width(Inet6)), ip));
  }

  lemma KernelFindsListed(lines: seq<CidrLine>, s: GeoSnapshot, ip: IpAddr)
    requires forall c: nat :: Claims(s.Of(ip.family), c, ip.value) <==> Listed(lines, c, ip)
    ensures var r := KernelLookup(XdpOf(s.ipv4, Width(Inet)) + XdpOf(s.ipv6, Width(Inet6)), ip);
            (r.Some? ==> Listed(lines, r.value, ip)) && (r.None? ==> forall c: nat :: !Listed(lines, c, ip))
  {
    var own, other := if ip.family.Inet? then Inet else Inet6, if ip.family.Inet? then Inet6 else Inet;
    var mine, theirs := XdpOf(s.Of(own), Width(own)), XdpOf(s.Of(other), Width(other));
    var ps := XdpOf(s.ipv4, Width(Inet)) + XdpOf(s.ipv6, Width(Inet6));
    OtherFamilyNeverMatches(s.Of(other), Width(other), ip);
    assert forall p :: p in ps <==> p in mine || p in theirs;
    var hit := LongestMatch(ps, ip);
    if hit.Some? {
      XdpMatches(s.Of(own), Width(own), ip, hit.value.country);
      assert hit.value in mine;
    } else {
      forall c: nat
        ensures !Listed(lines, c, ip)
      {
        XdpMatches(s.Of(own), Width(own), ip, c);
        assert forall p | p in mine :: p in ps && !Matches(p, ip);
      }
    }
  }
}
