/**
 Sorted address ranges tagged with a country: normalisation, validation and binary search.  The source
 has one copy of this code per address width; `max` is the largest address of the width.
 */
module Ranges {
  import opened Wrappers

  datatype Range = Range(start: nat, end: nat, country: nat) {
    predicate Has(x: nat) {
      start <= x <= end
    }

    predicate InSpace(max: nat) {
      start <= end <= max
    }
  }

  predicate AllInSpace(rs: seq<Range>, max: nat) {
    forall i | 0 <= i < |rs| :: rs[i].InSpace(max)
  }

  /** Some range of `rs` claims address `x` for `country`. */
  ghost predicate Claims(rs: seq<Range>, country: nat, x: nat) {
    exists i :: 0 <= i < |rs| && rs[i].country == country && rs[i].Has(x)
  }

  /** No address is claimed for two countries. */
  ghost predicate NoConflict(rs: seq<Range>) {
    forall i, j, x: nat | 0 <= i < |rs| && 0 <= j < |rs| && rs[i].Has(x) && rs[j].Has(x) ::
      rs[i].country == rs[j].country
  }

  // ----- sorting by (start, end, country)

  predicate Leq(a: Range, b: Range) {
    || a.start < b.start
    || (a.start == b.start && a.end < b.end)
    || (a.start == b.start && a.end == b.end && a.country <= b.country)
  }

  predicate Sorted(rs: seq<Range>) {
    forall i, j | 0 <= i < j < |rs| :: Leq(rs[i], rs[j])
  }

  function Insert(r: Range, rs: seq<Range>): (out: seq<Range>)
    requires Sorted(rs)
    ensures Sorted(out) && |out| == |rs| + 1
    ensures forall x :: x in out <==> x == r || x in rs
  {
    if rs == [] then [r]
    else if Leq(r, rs[0]) then [r] + rs
    else
      var tail := Insert(r, rs[1..]);
      assert forall j | 0 <= j < |tail| :: tail[j] in tail && Leq(rs[0], tail[j]);
      assert forall x :: x in rs <==> x == rs[0] || x in rs[1..];
      [rs[0]] + tail
  }

  /** The library sort, as an insertion sort: the key is the whole record, so its result is unique. */
  function Sort(rs: seq<Range>): (out: seq<Range>)
    ensures Sorted(out) && |out| == |rs|
    ensures forall x :: x in out <==> x in rs
  {
    if rs == [] then [] else
      assert forall x :: x in rs <==> x == rs[0] || x in rs[1..];
      Insert(rs[0], Sort(rs[1..]))
  }

  // ----- normalisation

  function SaturatingNext(x: nat, max: nat): nat {
    if x < max then x + 1 else max
  }

  function Larger(a: nat, b: nat): nat {
    if a < b then b else a
  }

  /** One round of the merging loop: extend the last range, or push the next one. */
  function MergeInto(acc: seq<Range>, r: Range, max: nat): seq<Range> {
    if acc != [] && acc[|acc| - 1].country == r.country && r.start <= SaturatingNext(acc[|acc| - 1].end, max) then
      var last := acc[|acc| - 1];
      acc[..|acc| - 1] + [last.(end := Larger(last.end, r.end))]
    else
      acc + [r]
  }

  function MergeAll(rs: seq<Range>, max: nat): seq<Range> {
    if rs == [] then [] else MergeInto(MergeAll(rs[..|rs| - 1], max), rs[|rs| - 1], max)
  }

  function Normalized(rs: seq<Range>, max: nat): seq<Range> {
    MergeAll(Sort(rs), max)
  }

  lemma MergeNext(rs: seq<Range>, i: nat, max: nat)
    requires i < |rs|
    ensures MergeAll(rs[..i + 1], max) == MergeInto(MergeAll(rs[..i], max), rs[i], max)
  {
    assert rs[..i + 1][..i] == rs[..i];
  }

  lemma ReplacedLast(acc: seq<Range>, r: Range)
    requires acc != []
    ensures acc[|acc| - 1 := r] == acc[..|acc| - 1] + [r]
  {
  }

  method NormalizeRanges(ranges: seq<Range>, max: nat) returns (normalized: seq<Range>)
    ensures normalized == Normalized(ranges, max)
  {
    var sorted := Sort(ranges);
    normalized := [];
    var i := 0;
    while i < |sorted|
      invariant 0 <= i <= |sorted|
      invariant normalized == MergeAll(sorted[..i], max)
    {
      MergeNext(sorted, i, max);
      var range := sorted[i];
      var n := |normalized|;
      if n > 0 && normalized[n - 1].country == range.country
         && range.start <= SaturatingNext(normalized[n - 1].end, max) {
        var last := normalized[n - 1];
        ReplacedLast(normalized, last.(end := Larger(last.end, range.end)));
        normalized := normalized[n - 1 := last.(end := Larger(last.end, range.end))];
      } else {
        normalized := normalized + [range];
      }
      i := i + 1;
    }
    assert sorted[..i] == sorted;
  }

  // ----- validation

  predicate Separated(rs: seq<Range>) {
    forall i | 0 <= i < |rs| - 1 :: rs[i].end < rs[i + 1].start
  }

  method ValidateNonOverlapping(rs: seq<Range>) returns (ok: bool)
    ensures ok <==> Separated(rs)
  {
    var i := 0;
    while i + 1 < |rs|
      invariant 0 <= i
      invariant forall j | 0 <= j < i && j < |rs| - 1 :: rs[j].end < rs[j + 1].start
    {
      if rs[i].end >= rs[i + 1].start {
        return false;
      }
      i := i + 1;
    }
    return true;
  }

  // ----- what the merged ranges claim

  /** What the merging loop maintains while it runs over sorted ranges that all start at `next` or before. */
  predicate Ordered(acc: seq<Range>, next: nat, max: nat) {
    && AllInSpace(acc, max)
    && (forall i, j | 0 <= i < j < |acc| :: acc[i].start <= acc[j].start)
    && forall i | 0 <= i < |acc| :: acc[i].start <= next
  }

  lemma OrderedLater(acc: seq<Range>, start: nat, next: nat, max: nat)
    requires Ordered(acc, start, max) && start <= next
    ensures Ordered(acc, next, max)
  {
  }

  lemma ClaimsMergeInto(acc: seq<Range>, r: Range, max: nat, country: nat, x: nat)
    requires r.InSpace(max) && Ordered(acc, r.start, max)
    ensures Claims(MergeInto(acc, r, max), country, x)
            <==> Claims(acc, country, x) || (r.country == country && r.Has(x))
    ensures Ordered(MergeInto(acc, r, max), r.start, max)
  {
    var out, n := MergeInto(acc, r, max), |acc|;
    if |out| == n {
      var last := acc[n - 1];
      assert out[n - 1].Has(x) <==> last.Has(x) || r.Has(x);
      assert forall i | 0 <= i < n - 1 :: out[i] == acc[i];
      if r.country == country && r.Has(x) {
        assert out[n - 1].country == country && out[n - 1].Has(x);
      }
    } else {
      assert out[n] == r;
      assert forall i | 0 <= i < n :: out[i] == acc[i];
    }
  }

  lemma {:induction false} ClaimsMergeAll(rs: seq<Range>, max: nat, country: nat, x: nat)
    requires Sorted(rs) && AllInSpace(rs, max)
    ensures Claims(MergeAll(rs, max), country, x) <==> Claims(rs, country, x)
    ensures rs != [] ==> Ordered(MergeAll(rs, max), rs[|rs| - 1].start, max)
  {
    if rs != [] {
      var init, r := rs[..|rs| - 1], rs[|rs| - 1];
      InitOfSorted(rs, max);
      ClaimsMergeAll(init, max, country, x);
      var merged := MergeAll(init, max);
      assert init != [] ==> init[|init| - 1].start <= r.start;
      OrderedLater(merged, if init == [] then 0 else init[|init| - 1].start, r.start, max);
      ClaimsMergeInto(merged, r, max, country, x);
      assert rs == init + [r];
      ClaimsAppend(init, r, country, x);
    }
  }

  lemma ClaimsAppend(rs: seq<Range>, r: Range, country: nat, x: nat)
    ensures Claims(rs + [r], country, x) <==> Claims(rs, country, x) || (r.country == country && r.Has(x))
  {
    var all := rs + [r];
    assert all[|rs|] == r;
    assert forall i | 0 <= i < |rs| :: all[i] == rs[i];
  }

  lemma ClaimsSort(rs: seq<Range>, country: nat, x: nat)
    ensures Claims(Sort(rs), country, x) <==> Claims(rs, country, x)
  {
    ClaimsSameElements(rs, Sort(rs), country, x);
    ClaimsSameElements(Sort(rs), rs, country, x);
  }

  lemma ClaimsSameElements(rs: seq<Range>, ts: seq<Range>, country: nat, x: nat)
    requires forall r :: r in rs ==> r in ts
    ensures Claims(rs, country, x) ==> Claims(ts, country, x)
  {
    if Claims(rs, country, x) {
      var i :| 0 <= i < |rs| && rs[i].country == country && rs[i].Has(x);
      assert rs[i] in ts;
    }
  }

  lemma SortKeepsSpace(rs: seq<Range>, max: nat)
    requires AllInSpace(rs, max)
    ensures AllInSpace(Sort(rs), max)
  {
    forall i | 0 <= i < |rs|
      ensures Sort(rs)[i].InSpace(max)
    {
      assert Sort(rs)[i] in rs;
    }
  }

  /** Normalisation changes no country's addresses, also at the top of the address space. */
  lemma NormalizationIsExact(rs: seq<Range>, max: nat, country: nat, x: nat)
    requires AllInSpace(rs, max)
    ensures Claims(Normalized(rs, max), country, x) <==> Claims(rs, country, x)
    ensures AllInSpace(Normalized(rs, max), max)
  {
    SortKeepsSpace(rs, max);
    ClaimsMergeAll(Sort(rs), max, country, x);
    ClaimsSort(rs, country, x);
  }

  // ----- validation succeeds exactly on conflict-free input

  lemma {:induction false} SeparatedFar(rs: seq<Range>, max: nat, i: nat, j: nat)
    requires Separated(rs) && AllInSpace(rs, max) && i < j < |rs|
    ensures rs[i].end < rs[j].start
    decreases j
  {
    if i + 1 < j {
      SeparatedFar(rs, max, i, j - 1);
      assert rs[j - 1].end < rs[j - 1 + 1].start;
    }
  }

  /** In separated ranges an address lies in at most one range. */
  lemma SeparatedUnique(rs: seq<Range>, max: nat, i: nat, j: nat, x: nat)
    requires Separated(rs) && AllInSpace(rs, max)
    requires i < |rs| && j < |rs| && rs[i].Has(x) && rs[j].Has(x)
    ensures i == j
  {
    if i < j {
      SeparatedFar(rs, max, i, j);
    } else if j < i {
      SeparatedFar(rs, max, j, i);
    }
  }

  lemma SeparatedMergeInto(acc: seq<Range>, r: Range, max: nat)
    requires Separated(acc) && Ordered(acc, r.start, max) && r.InSpace(max)
    requires acc != [] && acc[|acc| - 1].country != r.country ==> acc[|acc| - 1].end < r.start
    ensures Separated(MergeInto(acc, r, max))
  {
    var out, n := MergeInto(acc, r, max), |acc|;
    forall i | 0 <= i < |out| - 1
      ensures out[i].end < out[i + 1].start
    {
      if i + 1 < n {
        assert acc[i].end < acc[i + 1].start;
      }
    }
  }

  /** A range that starts inside the last merged one of another country is a conflict. */
  lemma NextStartsAfterLast(rs: seq<Range>, max: nat)
    requires rs != [] && Sorted(rs) && AllInSpace(rs, max) && NoConflict(rs)
    ensures var acc, r := MergeAll(rs[..|rs| - 1], max), rs[|rs| - 1];
            acc != [] && acc[|acc| - 1].country != r.country ==> acc[|acc| - 1].end < r.start
  {
    var init, r := rs[..|rs| - 1], rs[|rs| - 1];
    var acc := MergeAll(init, max);
    if acc != [] && r.start <= acc[|acc| - 1].end {
      var country := acc[|acc| - 1].country;
      InitOfSorted(rs, max);
      ClaimsMergeAll(init, max, country, r.start);
      assert acc[|acc| - 1].Has(r.start) && rs[|rs| - 1].Has(r.start);
      assert Claims(acc, country, r.start);
      var i :| 0 <= i < |init| && init[i].country == country && init[i].Has(r.start);
      assert rs[i].Has(r.start);
    }
  }

  lemma InitOfSorted(rs: seq<Range>, max: nat)
    requires rs != [] && Sorted(rs) && AllInSpace(rs, max)
    ensures var init := rs[..|rs| - 1];
            Sorted(init) && AllInSpace(init, max)
            && (init != [] ==> init[|init| - 1].start <= rs[|rs| - 1].start)
  {
    if |rs| > 1 {
      assert Leq(rs[|rs| - 2], rs[|rs| - 1]);
    }
  }

  lemma {:induction false} ConflictFreeMerges(rs: seq<Range>, max: nat)
    requires Sorted(rs) && AllInSpace(rs, max) && NoConflict(rs)
    ensures Separated(MergeAll(rs, max))
  {
    if rs != [] {
      var init, r := rs[..|rs| - 1], rs[|rs| - 1];
      InitOfSorted(rs, max);
      assert NoConflict(init) by {
        forall i, j, x: nat | 0 <= i < |init| && 0 <= j < |init| && init[i].Has(x) && init[j].Has(x)
          ensures init[i].country == init[j].country
        {
          assert rs[i].Has(x) && rs[j].Has(x);
        }
      }
      ConflictFreeMerges(init, max);
      ClaimsMergeAll(init, max, r.country, r.start);
      NextStartsAfterLast(rs, max);
      SeparatedMergeInto(MergeAll(init, max), r, max);
    }
  }

  /** Validation of the normalised ranges succeeds if and only if no address is claimed for two countries. */
  lemma ValidIffNoConflict(rs: seq<Range>, max: nat)
    requires AllInSpace(rs, max)
    ensures Separated(Normalized(rs, max)) <==> NoConflict(rs)
  {
    SortKeepsSpace(rs, max);
    var sorted, merged := Sort(rs), Normalized(rs, max);
    if NoConflict(rs) {
      forall i, j, x: nat | 0 <= i < |sorted| && 0 <= j < |sorted| && sorted[i].Has(x) && sorted[j].Has(x)
        ensures sorted[i].country == sorted[j].country
      {
        assert sorted[i] in rs && sorted[j] in rs;
      }
      ConflictFreeMerges(sorted, max);
    }
    if Separated(merged) {
      forall i, j, x: nat | 0 <= i < |rs| && 0 <= j < |rs| && rs[i].Has(x) && rs[j].Has(x)
        ensures rs[i].country == rs[j].country
      {
        NormalizationIsExact(rs, max, rs[i].country, x);
        NormalizationIsExact(rs, max, rs[j].country, x);
        var a :| 0 <= a < |merged| && merged[a].country == rs[i].country && merged[a].Has(x);
        var b :| 0 <= b < |merged| && merged[b].country == rs[j].country && merged[b].Has(x);
        SeparatedUnique(merged, max, a, b, x);
      }
    }
  }

  // ----- lookup

  /** The country of the first range that has `x`. */
  function FindCountry(rs: seq<Range>, x: nat): (r: Option<nat>)
    ensures r.Some? ==> Claims(rs, r.value, x)
    ensures r.None? ==> forall i | 0 <= i < |rs| :: !rs[i].Has(x)
  {
    if rs == [] then None
    else if rs[0].Has(x) then Some(rs[0].country)
    else
      var r := FindCountry(rs[1..], x);
      assert forall i | 0 <= i < |rs| - 1 :: rs[1..][i] == rs[i + 1];
      r
  }

  lemma FindCountryUnique(rs: seq<Range>, max: nat, x: nat, i: nat)
    requires Separated(rs) && AllInSpace(rs, max) && i < |rs| && rs[i].Has(x)
    ensures FindCountry(rs, x) == Some(rs[i].country)
  {
    var r := FindCountry(rs, x);
    var j :| 0 <= j < |rs| && rs[j].Has(x) && rs[j].country == r.value;
    SeparatedUnique(rs, max, i, j, x);
  }

  /** The binary search, over ranges that passed validation. */
  method Lookup(rs: seq<Range>, ghost max: nat, ip: nat) returns (country: Option<nat>)
    requires Separated(rs) && AllInSpace(rs, max)
    ensures country == FindCountry(rs, ip)
  {
    var low, high := 0, |rs|;
    while low < high
      invariant 0 <= low <= high <= |rs|
      invariant forall i | 0 <= i < low :: rs[i].end < ip
      invariant forall i | high <= i < |rs| :: ip < rs[i].start
    {
      var mid := low + (high - low) / 2;
      if ip < rs[mid].start {
        forall i | mid < i < |rs| ensures ip < rs[i].start { SeparatedFar(rs, max, mid, i); }
        high := mid;
      } else if ip > rs[mid].end {
        forall i | 0 <= i < mid ensures rs[i].end < ip { SeparatedFar(rs, max, i, mid); }
        low := mid + 1;
      } else {
        FindCountryUnique(rs, max, ip, mid);
        return Some(rs[mid].country);
      }
    }
    return None;
  }
}
