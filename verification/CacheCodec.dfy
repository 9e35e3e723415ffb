/**
 The binary caches: big-endian fields, a header with counts, and fixed-size records.
 */
module CacheCodec {
  import opened Wrappers
  import opened Bits
  import opened Ranges
  import opened GeoIndex
  import opened Threat

  type byte = n: int | 0 <= n < 256

  // ----- big-endian numbers

  /** How many values fit in `width` bytes. */
  function Capacity(width: nat): nat {
    if width == 0 then 1 else 256 * Capacity(width - 1)
  }

  function ToBytes(n: nat, width: nat): (bs: seq<byte>)
    ensures |bs| == width
  {
    if width == 0 then [] else ToBytes(n / 256, width - 1) + [n % 256]
  }

  function FromBytes(bs: seq<byte>): nat {
    if bs == [] then 0 else 256 * FromBytes(bs[..|bs| - 1]) + bs[|bs| - 1]
  }

  lemma {:induction false} NumberRoundTrip(n: nat, width: nat)
    requires n < Capacity(width)
    ensures FromBytes(ToBytes(n, width)) == n
  {
    if width > 0 {
      NumberRoundTrip(n / 256, width - 1);
      assert ToBytes(n, width)[..width - 1] == ToBytes(n / 256, width - 1);
    }
  }

  lemma {:induction false} BytesRoundTrip(bs: seq<byte>)
    ensures FromBytes(bs) < Capacity(|bs|) && ToBytes(FromBytes(bs), |bs|) == bs
  {
    if bs != [] {
      BytesRoundTrip(bs[..|bs| - 1]);
    }
  }

  // ----- range records

  function EncodeRange(r: Range, width: nat): (bs: seq<byte>)
    ensures |bs| == 2 * width + 2
  {
    ToBytes(r.start, width) + ToBytes(r.end, width) + ToBytes(r.country, 2)
  }

  lemma SliceOfSlice(bytes: seq<byte>, at: nat, size: nat, i: nat, j: nat)
    requires i <= j <= size && at + size <= |bytes|
    ensures bytes[at..at + size][i..j] == bytes[at + i..at + j]
  {
    var record := bytes[at..at + size];
    assert forall k | 0 <= k < size :: record[k] == bytes[at + k];
    assert forall k | 0 <= k < j - i :: record[i..j][k] == bytes[at + i..at + j][k];
  }

  lemma RecordFields(bytes: seq<byte>, at: nat, width: nat)
    requires at + width + width + 2 <= |bytes|
    ensures var end, country := at + width, at + width + width;
            DecodeRange(bytes[at..country + 2], width)
            == Range(FromBytes(bytes[at..end]), FromBytes(bytes[end..country]), FromBytes(bytes[country..country + 2]))
  {
    var size, two := width + width + 2, width + width;
    assert two == 2 * width;
    SliceOfSlice(bytes, at, size, 0, width);
    SliceOfSlice(bytes, at, size, width, two);
    SliceOfSlice(bytes, at, size, two, size);
  }

  function DecodeRange(bs: seq<byte>, width: nat): Range
    requires |bs| == 2 * width + 2
  {
    Range(FromBytes(bs[..width]), FromBytes(bs[width..2 * width]), FromBytes(bs[2 * width..]))
  }

  predicate Fits(r: Range, width: nat) {
    r.start < Capacity(width) && r.end < Capacity(width) && r.country < Capacity(2)
  }

  lemma RangeRoundTrip(r: Range, width: nat)
    requires Fits(r, width)
    ensures DecodeRange(EncodeRange(r, width), width) == r
  {
    var bs := EncodeRange(r, width);
    assert bs[..width] == ToBytes(r.start, width);
    assert bs[width..2 * width] == ToBytes(r.end, width);
    assert bs[2 * width..] == ToBytes(r.country, 2);
    NumberRoundTrip(r.start, width);
    NumberRoundTrip(r.end, width);
    NumberRoundTrip(r.country, 2);
  }

  lemma RangeBytesRoundTrip(bs: seq<byte>, width: nat)
    requires |bs| == 2 * width + 2
    ensures Fits(DecodeRange(bs, width), width) && EncodeRange(DecodeRange(bs, width), width) == bs
  {
    BytesRoundTrip(bs[..width]);
    BytesRoundTrip(bs[width..2 * width]);
    BytesRoundTrip(bs[2 * width..]);
    assert bs == bs[..width] + bs[width..2 * width] + bs[2 * width..];
  }

  // ----- lists of fixed-size records, for any record codec

  /** The size of `count` records. */
  function Total(count: nat, size: nat): nat {
    if count == 0 then 0 else Total(count - 1, size) + size
  }

  lemma {:induction false} TotalGrows(i: nat, count: nat, size: nat)
    requires i <= count
    ensures Total(i, size) <= Total(count, size)
    decreases count
  {
    if i < count {
      TotalGrows(i, count - 1, size);
    }
  }

  function EncodeList<T>(f: T -> seq<byte>, xs: seq<T>): seq<byte> {
    if xs == [] then [] else EncodeList(f, xs[..|xs| - 1]) + f(xs[|xs| - 1])
  }

  function DecodeList<T>(g: seq<byte> -> T, size: nat, count: nat, bs: seq<byte>): (xs: seq<T>)
    requires |bs| == Total(count, size)
    ensures |xs| == count
  {
    if count == 0 then []
    else
      var cut := |bs| - size;
      DecodeList(g, size, count - 1, bs[..cut]) + [g(bs[cut..])]
  }

  lemma EncodeListAppend<T>(f: T -> seq<byte>, init: seq<T>, last: T)
    ensures EncodeList(f, init + [last]) == EncodeList(f, init) + f(last)
  {
    assert (init + [last])[..|init|] == init;
  }

  lemma DecodeListAppend<T>(g: seq<byte> -> T, size: nat, count: nat, bs: seq<byte>, record: seq<byte>)
    requires |bs| == Total(count, size) && |record| == size
    ensures DecodeList(g, size, count + 1, bs + record) == DecodeList(g, size, count, bs) + [g(record)]
  {
    assert (bs + record)[..|bs|] == bs && (bs + record)[|bs|..] == record;
  }

  lemma {:induction false} ListRoundTrip<T>(f: T -> seq<byte>, g: seq<byte> -> T, size: nat, xs: seq<T>)
    requires forall i | 0 <= i < |xs| :: |f(xs[i])| == size && g(f(xs[i])) == xs[i]
    ensures |EncodeList(f, xs)| == Total(|xs|, size)
    ensures DecodeList(g, size, |xs|, EncodeList(f, xs)) == xs
  {
    if xs != [] {
      var init, last := xs[..|xs| - 1], xs[|xs| - 1];
      ListRoundTrip(f, g, size, init);
      assert xs == init + [last];
      OneMoreRoundTrip(f, g, size, init, last, EncodeList(f, init));
    }
  }

  lemma OneMoreRoundTrip<T>(f: T -> seq<byte>, g: seq<byte> -> T, size: nat, init: seq<T>, last: T, bs: seq<byte>)
    requires bs == EncodeList(f, init) && |bs| == Total(|init|, size) && DecodeList(g, size, |init|, bs) == init
    requires |f(last)| == size && g(f(last)) == last
    ensures |EncodeList(f, init + [last])| == Total(|init| + 1, size)
    ensures DecodeList(g, size, |init| + 1, EncodeList(f, init + [last])) == init + [last]
  {
    EncodeListAppend(f, init, last);
    DecodeListAppend(g, size, |init|, bs, f(last));
  }

  lemma {:induction false} ListBytesRoundTrip<T>(f: T -> seq<byte>, g: seq<byte> -> T, size: nat, count: nat, bs: seq<byte>)
    requires |bs| == Total(count, size)
    requires forall b: seq<byte> | |b| == size :: f(g(b)) == b
    ensures EncodeList(f, DecodeList(g, size, count, bs)) == bs
    ensures forall i | 0 <= i < count :: exists b: seq<byte> :: |b| == size && DecodeList(g, size, count, bs)[i] == g(b)
  {
    if count > 0 {
      var cut := |bs| - size;
      var first, last := bs[..cut], bs[cut..];
      var init := DecodeList(g, size, count - 1, first);
      ListBytesRoundTrip(f, g, size, count - 1, first);
      EncodeListAppend(f, init, g(last));
      assert DecodeList(g, size, count, bs) == init + [g(last)];
      assert bs == first + last && |last| == size;
    }
  }

  // ----- range vectors

  function RecordSize(width: nat): nat {
    2 * width + 2
  }

  function Encoder(width: nat): Range -> seq<byte> {
    (r: Range) => EncodeRange(r, width)
  }

  function Decoder(width: nat): seq<byte> -> Range {
    (bs: seq<byte>) => if |bs| == RecordSize(width) then DecodeRange(bs, width) else Range(0, 0, 0)
  }

  function EncodeRanges(rs: seq<Range>, width: nat): seq<byte> {
    EncodeList(Encoder(width), rs)
  }

  function DecodeRanges(bs: seq<byte>, count: nat, width: nat): (rs: seq<Range>)
    requires |bs| == Total(count, RecordSize(width))
    ensures |rs| == count
  {
    DecodeList(Decoder(width), RecordSize(width), count, bs)
  }

  lemma DecodeRangesAppend(bs: seq<byte>, record: seq<byte>, count: nat, width: nat)
    requires |bs| == Total(count, RecordSize(width)) && |record| == RecordSize(width)
    ensures |bs + record| == Total(count + 1, RecordSize(width))
    ensures DecodeRanges(bs + record, count + 1, width) == DecodeRanges(bs, count, width) + [DecodeRange(record, width)]
  {
    DecodeListAppend(Decoder(width), RecordSize(width), count, bs, record);
  }

  lemma NextRange(bytes: seq<byte>, at: nat, offset: nat, next: nat, i: nat, width: nat)
    requires at <= offset && next == offset + RecordSize(width) <= |bytes| && offset - at == Total(i, RecordSize(width))
    ensures next - at == Total(i + 1, RecordSize(width))
    ensures DecodeRanges(bytes[at..next], i + 1, width)
            == DecodeRanges(bytes[at..offset], i, width) + [DecodeRange(bytes[offset..next], width)]
  {
    assert bytes[at..next] == bytes[at..offset] + bytes[offset..next];
    DecodeRangesAppend(bytes[at..offset], bytes[offset..next], i, width);
  }

  lemma RangesRoundTrip(rs: seq<Range>, width: nat)
    requires forall i | 0 <= i < |rs| :: Fits(rs[i], width)
    ensures |EncodeRanges(rs, width)| == Total(|rs|, RecordSize(width))
    ensures DecodeRanges(EncodeRanges(rs, width), |rs|, width) == rs
  {
    forall i | 0 <= i < |rs|
      ensures |Encoder(width)(rs[i])| == RecordSize(width) && Decoder(width)(Encoder(width)(rs[i])) == rs[i]
    {
      RangeRoundTrip(rs[i], width);
    }
    ListRoundTrip(Encoder(width), Decoder(width), RecordSize(width), rs);
  }

  lemma RangesBytesRoundTrip(bs: seq<byte>, count: nat, width: nat)
    requires |bs| == Total(count, RecordSize(width))
    ensures var rs := DecodeRanges(bs, count, width);
            EncodeRanges(rs, width) == bs && forall i | 0 <= i < count :: Fits(rs[i], width)
  {
    var f, g, size := Encoder(width), Decoder(width), RecordSize(width);
    forall b: seq<byte> | |b| == size
      ensures f(g(b)) == b && Fits(g(b), width)
    {
      RangeBytesRoundTrip(b, width);
    }
    ListBytesRoundTrip(f, g, size, count, bs);
    var rs := DecodeRanges(bs, count, width);
    forall i | 0 <= i < count
      ensures Fits(rs[i], width)
    {
      var b: seq<byte> :| |b| == size && DecodeList(g, size, count, bs)[i] == g(b);
    }
  }

  // ----- the country cache

  const GEO_MAGIC: seq<byte> := [83, 71, 69, 79]
  const CACHE_VERSION: nat := 1
  const HEADER: nat := 22
  const V4_WIDTH: nat := 4
  const V6_WIDTH: nat := 16

  datatype Header = Header(createdAt: nat, v4: nat, v6: nat)

  /** `len as u32` */
  function Count32(n: nat): nat {
    if n < 0x1_0000_0000 then n else n % 0x1_0000_0000
  }

  function EncodeHeader(h: Header): (bs: seq<byte>)
    ensures |bs| == HEADER
  {
    GEO_MAGIC + ToBytes(CACHE_VERSION, 2) + ToBytes(h.createdAt, 8) + ToBytes(h.v4, 4) + ToBytes(h.v6, 4)
  }

  function DecodeHeader(bs: seq<byte>): Option<Header> {
    if |bs| < HEADER || bs[..4] != GEO_MAGIC || FromBytes(bs[4..6]) != CACHE_VERSION then None
    else Some(Header(FromBytes(bs[6..14]), FromBytes(bs[14..18]), FromBytes(bs[18..22])))
  }

  function DecodeBody(bs: seq<byte>, h: Header): Option<GeoSnapshot> {
    var cut := Total(h.v4, RecordSize(V4_WIDTH));
    if |bs| != cut + Total(h.v6, RecordSize(V6_WIDTH)) then None
    else
      var s := GeoSnapshot(h.createdAt, DecodeRanges(bs[..cut], h.v4, V4_WIDTH), DecodeRanges(bs[cut..], h.v6, V6_WIDTH));
      if Separated(s.ipv4) && Separated(s.ipv6) then Some(s) else None
  }

  function HeaderOf(s: GeoSnapshot): Header {
    Header(s.createdAt, Count32(|s.ipv4|), Count32(|s.ipv6|))
  }

  function EncodeCache(s: GeoSnapshot): seq<byte> {
    EncodeHeader(HeaderOf(s)) + (EncodeRanges(s.ipv4, V4_WIDTH) + EncodeRanges(s.ipv6, V6_WIDTH))
  }

  function DecodeCache(bs: seq<byte>): Option<GeoSnapshot> {
    var h := DecodeHeader(bs);
    if h.None? then None else DecodeBody(bs[HEADER..], h.value)
  }

  class CacheReader {
    const bytes: seq<byte>
    var offset: nat

    ghost predicate Valid()
      reads this
    {
      offset <= |bytes|
    }

    constructor (bytes: seq<byte>)
      ensures Valid() && this.bytes == bytes && offset == 0
    {
      this.bytes := bytes;
      offset := 0;
    }

    method Take(len: nat) returns (slice: Option<seq<byte>>)
      requires Valid()
      modifies this`offset
      ensures Valid()
      ensures slice.Some? <==> old(offset) + len <= |bytes|
      ensures slice.Some? ==> offset == old(offset) + len && slice.value == bytes[old(offset)..offset]
      ensures slice.None? ==> offset == old(offset)
    {
      var end := offset + len;
      if end > |bytes| {
        return None;
      }
      slice := Some(bytes[offset..end]);
      offset := end;
    }

    method Number(width: nat) returns (n: Option<nat>)
      requires Valid()
      modifies this`offset
      ensures Valid()
      ensures n.Some? <==> old(offset) + width <= |bytes|
      ensures n.Some? ==> offset == old(offset) + width && n.value == FromBytes(bytes[old(offset)..offset])
    {
      var slice := Take(width);
      if slice.None? {
        return None;
      }
      return Some(FromBytes(slice.value));
    }

    method ReadRange(width: nat) returns (r: Option<Range>)
      requires Valid()
      modifies this`offset
      ensures Valid()
      ensures r.Some? <==> old(offset) + 2 * width + 2 <= |bytes|
      ensures r.Some? ==> offset == old(offset) + 2 * width + 2 && r.value == DecodeRange(bytes[old(offset)..offset], width)
    {
      ghost var at := offset;
      var start := Number(width);
      if start.None? { return None; }
      var end := Number(width);
      if end.None? { return None; }
      var country := Number(2);
      if country.None? { return None; }
      r := Some(Range(start.value, end.value, country.value));
      RecordFields(bytes, at, width);
    }

    /** `out` is the `i` records from `at` to here. */
    ghost predicate HasRead(at: nat, i: nat, width: nat, out: seq<Range>)
      reads this
    {
      && offset <= |bytes| && offset == at + Total(i, RecordSize(width))
      && out == DecodeRanges(bytes[at..offset], i, width)
    }

    /** One more record after the `i` that started at `at`. */
    method ReadNextRange(width: nat, out: seq<Range>, ghost at: nat, ghost i: nat) returns (more: Option<seq<Range>>)
      requires HasRead(at, i, width, out)
      modifies this`offset
      ensures Valid()
      ensures more.Some? <==> at + Total(i, RecordSize(width)) + RecordSize(width) <= |bytes|
      ensures more.Some? ==> HasRead(at, i + 1, width, more.value)
    {
      ghost var before := offset;
      var r := ReadRange(width);
      if r.None? {
        return None;
      }
      NextRange(bytes, at, before, offset, i, width);
      return Some(out + [r.value]);
    }

    method ReadRanges(count: nat, width: nat) returns (rs: Option<seq<Range>>)
      requires Valid()
      modifies this`offset
      ensures Valid()
      ensures rs.Some? <==> old(offset) + Total(count, RecordSize(width)) <= |bytes|
      ensures rs.Some? ==> offset == old(offset) + Total(count, RecordSize(width))
                           && rs.value == DecodeRanges(bytes[old(offset)..offset], count, width)
    {
      ghost var at := offset;
      var out := [];
      var i := 0;
      while i < count
        invariant 0 <= i <= count && HasRead(at, i, width, out)
      {
        var more := ReadNextRange(width, out, at, i);
        if more.None? {
          TotalGrows(i + 1, count, RecordSize(width));
          return None;
        }
        out := more.value;
        i := i + 1;
      }
      return Some(out);
    }
  }

  method ReadHeader(reader: CacheReader) returns (h: Option<Header>)
    requires reader.Valid() && reader.offset == 0
    modifies reader`offset
    ensures reader.Valid()
    ensures h == DecodeHeader(reader.bytes)
    ensures h.Some? ==> reader.offset == HEADER
  {
    var magic := reader.Take(4);
    if magic.None? || magic.value != GEO_MAGIC { return None; }
    var version := reader.Number(2);
    if version.None? || version.value != CACHE_VERSION { return None; }
    var createdAt := reader.Number(8);
    if createdAt.None? { return None; }
    var v4 := reader.Number(4);
    if v4.None? { return None; }
    var v6 := reader.Number(4);
    if v6.None? { return None; }
    return Some(Header(createdAt.value, v4.value, v6.value));
  }

  method ReadBody(reader: CacheReader, h: Header) returns (s: Option<GeoSnapshot>)
    requires reader.Valid() && reader.offset == HEADER
    modifies reader`offset
    ensures s == DecodeBody(reader.bytes[HEADER..], h)
  {
    ghost var body := reader.bytes[HEADER..];
    var ipv4 := reader.ReadRanges(h.v4, V4_WIDTH);
    if ipv4.None? { return None; }
    assert reader.bytes[HEADER..reader.offset] == body[..Total(h.v4, RecordSize(V4_WIDTH))];
    var ipv6 := reader.ReadRanges(h.v6, V6_WIDTH);
    if ipv6.None? { return None; }
    if reader.offset != |reader.bytes| { return None; }
    assert reader.bytes[HEADER + Total(h.v4, RecordSize(V4_WIDTH))..reader.offset] == body[Total(h.v4, RecordSize(V4_WIDTH))..];
    var ok4 := ValidateNonOverlapping(ipv4.value);
    var ok6 := ValidateNonOverlapping(ipv6.value);
    if !ok4 || !ok6 { return None; }
    return Some(GeoSnapshot(h.createdAt, ipv4.value, ipv6.value));
  }

  method Decode(bytes: seq<byte>) returns (s: Option<GeoSnapshot>)
    ensures s == DecodeCache(bytes)
  {
    var reader := new CacheReader(bytes);
    var h := ReadHeader(reader);
    if h.None? {
      return None;
    }
    s := ReadBody(reader, h.value);
  }

  lemma EncodeRangesNext(rs: seq<Range>, i: nat, width: nat)
    requires i < |rs|
    ensures EncodeRanges(rs[..i + 1], width)
            == EncodeRanges(rs[..i], width) + (ToBytes(rs[i].start, width) + ToBytes(rs[i].end, width) + ToBytes(rs[i].country, 2))
  {
    EncodeListAppend(Encoder(width), rs[..i], rs[i]);
    assert rs[..i + 1] == rs[..i] + [rs[i]];
  }

  method AppendRangeRecords(out: seq<byte>, rs: seq<Range>, width: nat) returns (bytes: seq<byte>)
    ensures bytes == out + EncodeRanges(rs, width)
  {
    bytes := out;
    var i := 0;
    while i < |rs|
      invariant 0 <= i <= |rs|
      invariant bytes == out + EncodeRanges(rs[..i], width)
    {
      EncodeRangesNext(rs, i, width);
      bytes := bytes + ToBytes(rs[i].start, width);
      bytes := bytes + ToBytes(rs[i].end, width);
      bytes := bytes + ToBytes(rs[i].country, 2);
      i := i + 1;
    }
    assert rs[..i] == rs;
  }

  method Encode(s: GeoSnapshot) returns (bytes: seq<byte>)
    ensures bytes == EncodeCache(s)
  {
    bytes := GEO_MAGIC + ToBytes(CACHE_VERSION, 2);
    bytes := bytes + ToBytes(s.createdAt, 8);
    bytes := bytes + ToBytes(Count32(|s.ipv4|), 4);
    bytes := bytes + ToBytes(Count32(|s.ipv6|), 4);
    bytes := AppendRangeRecords(bytes, s.ipv4, V4_WIDTH);
    bytes := AppendRangeRecords(bytes, s.ipv6, V6_WIDTH);
  }

  /** Every field has its integer type's range. */
  predicate Typed(s: GeoSnapshot) {
    && s.createdAt < Capacity(8)
    && (forall i | 0 <= i < |s.ipv4| :: Fits(s.ipv4[i], V4_WIDTH))
    && (forall i | 0 <= i < |s.ipv6| :: Fits(s.ipv6[i], V6_WIDTH))
  }

  predicate TypedHeader(h: Header) {
    h.createdAt < Capacity(8) && h.v4 < Capacity(4) && h.v6 < Capacity(4)
  }

  lemma Slices(a: seq<byte>, b: seq<byte>, c: seq<byte>, d: seq<byte>, e: seq<byte>, tail: seq<byte>)
    requires |a| == 4 && |b| == 2 && |c| == 8 && |d| == 4 && |e| == 4
    ensures var bs := a + b + c + d + e + tail;
            && bs[..4] == a && bs[4..6] == b && bs[6..14] == c && bs[14..18] == d && bs[18..22] == e
            && bs[22..] == tail
  {
  }

  lemma HeaderRoundTrip(h: Header, tail: seq<byte>)
    requires TypedHeader(h)
    ensures DecodeHeader(EncodeHeader(h) + tail) == Some(h) && (EncodeHeader(h) + tail)[HEADER..] == tail
  {
    Slices(GEO_MAGIC, ToBytes(CACHE_VERSION, 2), ToBytes(h.createdAt, 8), ToBytes(h.v4, 4), ToBytes(h.v6, 4), tail);
    NumberRoundTrip(CACHE_VERSION, 2);
    NumberRoundTrip(h.createdAt, 8);
    NumberRoundTrip(h.v4, 4);
    NumberRoundTrip(h.v6, 4);
  }

  lemma HeaderBytesRoundTrip(bs: seq<byte>)
    requires DecodeHeader(bs).Some?
    ensures EncodeHeader(DecodeHeader(bs).value) == bs[..HEADER] && TypedHeader(DecodeHeader(bs).value)
  {
    BytesRoundTrip(bs[4..6]);
    BytesRoundTrip(bs[6..14]);
    BytesRoundTrip(bs[14..18]);
    BytesRoundTrip(bs[18..22]);
    assert bs[..HEADER] == bs[..4] + bs[4..6] + bs[6..14] + bs[14..18] + bs[18..22];
  }

  lemma CountsAreTyped(s: GeoSnapshot)
    requires s.createdAt < Capacity(8)
    ensures TypedHeader(HeaderOf(s))
    ensures Capacity(4) == 0x1_0000_0000
  {
  }

  lemma BodyRoundTrip(s: GeoSnapshot)
    requires Typed(s) && Separated(s.ipv4) && Separated(s.ipv6)
    ensures DecodeBody(EncodeRanges(s.ipv4, V4_WIDTH) + EncodeRanges(s.ipv6, V6_WIDTH), Header(s.createdAt, |s.ipv4|, |s.ipv6|)) == Some(s)
  {
    RangesRoundTrip(s.ipv4, V4_WIDTH);
    RangesRoundTrip(s.ipv6, V6_WIDTH);
    var a, b := EncodeRanges(s.ipv4, V4_WIDTH), EncodeRanges(s.ipv6, V6_WIDTH);
    assert (a + b)[..|a|] == a && (a + b)[|a|..] == b;
  }

  lemma DecodedBody(bs: seq<byte>, h: Header, s: GeoSnapshot)
    requires DecodeBody(bs, h) == Some(s)
    ensures var cut := Total(h.v4, RecordSize(V4_WIDTH));
            && |bs| == cut + Total(h.v6, RecordSize(V6_WIDTH))
            && s.ipv4 == DecodeRanges(bs[..cut], h.v4, V4_WIDTH) && s.ipv6 == DecodeRanges(bs[cut..], h.v6, V6_WIDTH)
  {
  }

  lemma BodyPartRoundTrip(bs: seq<byte>, h: Header, s: GeoSnapshot)
    requires DecodeBody(bs, h) == Some(s)
    ensures EncodeRanges(s.ipv4, V4_WIDTH) + EncodeRanges(s.ipv6, V6_WIDTH) == bs
    ensures forall i | 0 <= i < |s.ipv4| :: Fits(s.ipv4[i], V4_WIDTH)
    ensures forall i | 0 <= i < |s.ipv6| :: Fits(s.ipv6[i], V6_WIDTH)
  {
    DecodedBody(bs, h, s);
    PartsRoundTrip(bs, h.v4, V4_WIDTH, s.ipv4, h.v6, V6_WIDTH, s.ipv6);
  }

  lemma PartsRoundTrip(bs: seq<byte>, count1: nat, w1: nat, first: seq<Range>, count2: nat, w2: nat, second: seq<Range>)
    requires |bs| == Total(count1, RecordSize(w1)) + Total(count2, RecordSize(w2))
    requires first == DecodeRanges(bs[..Total(count1, RecordSize(w1))], count1, w1)
    requires second == DecodeRanges(bs[Total(count1, RecordSize(w1))..], count2, w2)
    ensures EncodeRanges(first, w1) + EncodeRanges(second, w2) == bs
    ensures forall i | 0 <= i < |first| :: Fits(first[i], w1)
    ensures forall i | 0 <= i < |second| :: Fits(second[i], w2)
  {
    var cut := Total(count1, RecordSize(w1));
    var head, tail := bs[..cut], bs[cut..];
    assert bs == head + tail;
    PartRoundTrip(head, count1, w1, first);
    PartRoundTrip(tail, count2, w2, second);
  }

  lemma PartRoundTrip(bs: seq<byte>, count: nat, width: nat, rs: seq<Range>)
    requires |bs| == Total(count, RecordSize(width)) && rs == DecodeRanges(bs, count, width)
    ensures EncodeRanges(rs, width) == bs && forall i | 0 <= i < |rs| :: Fits(rs[i], width)
  {
    RangesBytesRoundTrip(bs, count, width);
  }

  lemma BodyBytesRoundTrip(bs: seq<byte>, h: Header)
    requires DecodeBody(bs, h).Some? && h.createdAt < Capacity(8)
    ensures var s := DecodeBody(bs, h).value;
            && EncodeRanges(s.ipv4, V4_WIDTH) + EncodeRanges(s.ipv6, V6_WIDTH) == bs
            && Typed(s) && s.createdAt == h.createdAt && |s.ipv4| == h.v4 && |s.ipv6| == h.v6
            && |bs| == Total(h.v4, RecordSize(V4_WIDTH)) + Total(h.v6, RecordSize(V6_WIDTH))
  {
    BodyPartRoundTrip(bs, h, DecodeBody(bs, h).value);
  }

  /** A snapshot survives the cache if and only if its ranges are separated and its counts fit 32 bits. */
  lemma DecodeInvertsEncodeIff(s: GeoSnapshot)
    requires Typed(s)
    ensures DecodeCache(EncodeCache(s)) == Some(s)
            <==> Separated(s.ipv4) && Separated(s.ipv6) && |s.ipv4| < 0x1_0000_0000 && |s.ipv6| < 0x1_0000_0000
  {
    var tail := EncodeRanges(s.ipv4, V4_WIDTH) + EncodeRanges(s.ipv6, V6_WIDTH);
    CountsAreTyped(s);
    HeaderRoundTrip(HeaderOf(s), tail);
    assert DecodeCache(EncodeCache(s)) == DecodeBody(tail, HeaderOf(s));
    if DecodeBody(tail, HeaderOf(s)).Some? {
      BodyBytesRoundTrip(tail, HeaderOf(s));
    }
    if Separated(s.ipv4) && Separated(s.ipv6) {
      BodyRoundTrip(s);
    }
  }

  /** Every accepted byte string is the encoding of what it decodes to. */
  lemma EncodeInvertsDecode(bs: seq<byte>)
    requires DecodeCache(bs).Some?
    ensures EncodeCache(DecodeCache(bs).value) == bs && Typed(DecodeCache(bs).value)
  {
    var h := DecodeHeader(bs).value;
    var s := DecodeCache(bs).value;
    HeaderBytesRoundTrip(bs);
    BodyBytesRoundTrip(bs[HEADER..], h);
    CountsAreTyped(s);
    assert HeaderOf(s) == h;
    assert bs == bs[..HEADER] + bs[HEADER..];
  }

  /** Of an accepted byte string, no proper prefix and no proper extension is accepted. */
  lemma AcceptedBytesArePrefixFree(a: seq<byte>, b: seq<byte>)
    requires a <= b && DecodeCache(a).Some? && DecodeCache(b).Some?
    ensures a == b
  {
    assert a[14..18] == b[14..18] && a[18..22] == b[18..22];
    HeaderBytesRoundTrip(a);
    BodyBytesRoundTrip(a[HEADER..], DecodeHeader(a).value);
    HeaderBytesRoundTrip(b);
    BodyBytesRoundTrip(b[HEADER..], DecodeHeader(b).value);
    assert |a| == |b|;
  }

  // ----- the threat cache

  const THREAT_MAGIC: seq<byte> := [83, 84, 72, 82]
  const RECORD: nat := 18

  function EncodePrefix(p: ThreatIpPrefix): (bs: seq<byte>)
    requires p.prefix < 256
    ensures |bs| == RECORD
  {
    [if p.addr.family.Inet? then 4 else 6, p.prefix] + ToBytes(p.addr.value, 16)
  }

  function EncodePrefixes(ps: seq<ThreatIpPrefix>): (bs: seq<byte>)
    requires forall i | 0 <= i < |ps| :: ps[i].prefix < 256
    ensures |bs| == |ps| * RECORD
  {
    if ps == [] then [] else EncodePrefixes(ps[..|ps| - 1]) + EncodePrefix(ps[|ps| - 1])
  }

  function EncodeThreatHeader(createdAt: nat, count: nat): (bs: seq<byte>)
    ensures |bs| == RECORD
  {
    THREAT_MAGIC + ToBytes(CACHE_VERSION, 2) + ToBytes(createdAt, 8) + ToBytes(count, 4)
  }

  function EncodeThreatCache(s: ThreatSnapshot): seq<byte>
    requires forall i | 0 <= i < |s.prefixes| :: s.prefixes[i].prefix < 256
  {
    EncodeThreatHeader(s.createdAt, Count32(|s.prefixes|)) + EncodePrefixes(s.prefixes)
  }

  /** One record: the family picks how much of the value is kept and how long the prefix may be. */
  function DecodePrefix(bs: seq<byte>): (p: Option<ThreatIpPrefix>)
    requires |bs| == RECORD
    ensures p.Some? ==> p.value.Valid()
  {
    var value := FromBytes(bs[2..]);
    BytesRoundTrip(bs[2..]);
    CapacityOfAddress(|bs[2..]|);
    if bs[0] == 4 && bs[1] <= 32 then Some(ThreatIpPrefix(IpAddr(Inet, Count32(value)), bs[1]))
    else if bs[0] == 6 && bs[1] <= 128 then Some(ThreatIpPrefix(IpAddr(Inet6, value), bs[1]))
    else None
  }

  lemma {:induction false} CapacityIsPow2(width: nat)
    ensures Capacity(width) == Pow2(8 * width)
  {
    if width > 0 {
      CapacityIsPow2(width - 1);
      var k: nat :| k == 8;
      WidthOf(k);
      Pow2Adds(k, 8 * (width - 1));
    }
  }

  /** Sixteen bytes hold exactly the IPv6 address space. */
  lemma CapacityOfAddress(width: nat)
    requires width == 16
    ensures Capacity(width) == MaxAddr(Inet6) + 1
  {
    CapacityIsPow2(width);
    WidthOf(8 * width);
  }

  function DecodePrefixes(bs: seq<byte>, count: nat): (ps: Option<seq<ThreatIpPrefix>>)
    requires |bs| == count * RECORD
    ensures ps.Some? ==> |ps.value| == count && AllValid(ps.value)
  {
    if count == 0 then Some([])
    else
      var cut := (count - 1) * RECORD;
      var init, last := DecodePrefixes(bs[..cut], count - 1), DecodePrefix(bs[cut..]);
      if init.Some? && last.Some? then Some(init.value + [last.value]) else None
  }

  /** The date and the record count. */
  function DecodeThreatHeader(bs: seq<byte>): Option<(nat, nat)> {
    if |bs| < RECORD || bs[..4] != THREAT_MAGIC || FromBytes(bs[4..6]) != CACHE_VERSION then None
    else Some((FromBytes(bs[6..14]), FromBytes(bs[14..18])))
  }

  function DecodeThreatCache(bs: seq<byte>): Option<ThreatSnapshot> {
    var h := DecodeThreatHeader(bs);
    if h.None? || |bs| != RECORD + h.value.1 * RECORD then None
    else
      var ps := DecodePrefixes(bs[RECORD..], h.value.1);
      if ps.None? then None else Some(BuildThreatSnapshot(ps.value, h.value.0))
  }

  method DecodeRecords(records: seq<byte>, count: nat) returns (ps: Option<seq<ThreatIpPrefix>>)
    requires |records| == count * RECORD
    ensures ps == DecodePrefixes(records, count)
  {
    var prefixes: seq<ThreatIpPrefix> := [];
    var offset := 0;
    var i := 0;
    while i < count
      invariant 0 <= i <= count && offset == i * RECORD
      invariant DecodePrefixes(records[..offset], i) == Some(prefixes)
    {
      var next := offset + RECORD;
      var p := DecodePrefix(records[offset..next]);
      assert records[..next][..offset] == records[..offset];
      assert records[..next][offset..] == records[offset..next];
      i := i + 1;
      if p.None? {
        BadRecordRejects(records, count, i);
        return None;
      }
      prefixes := prefixes + [p.value];
      offset := next;
    }
    assert records[..offset] == records;
    return Some(prefixes);
  }

  method DecodeThreat(bytes: seq<byte>) returns (s: Option<ThreatSnapshot>)
    ensures s == DecodeThreatCache(bytes)
  {
    var h := DecodeThreatHeader(bytes);
    if h.None? || |bytes| != RECORD + h.value.1 * RECORD {
      return None;
    }
    var prefixes := DecodeRecords(bytes[RECORD..], h.value.1);
    if prefixes.None? {
      return None;
    }
    var built := BuildSnapshotFrom(prefixes.value, h.value.0);
    return Some(built);
  }

  /** If the first `k` records do not decode, nothing longer does. */
  lemma {:induction false} BadRecordRejects(bs: seq<byte>, count: nat, k: nat)
    requires |bs| == count * RECORD && k <= count && k * RECORD <= |bs|
    ensures DecodePrefixes(bs[..k * RECORD], k).None? ==> DecodePrefixes(bs, count).None?
    decreases count
  {
    if k < count {
      var cut := (count - 1) * RECORD;
      BadRecordRejects(bs[..cut], count - 1, k);
      assert bs[..cut][..k * RECORD] == bs[..k * RECORD];
    } else {
      assert bs[..k * RECORD] == bs;
    }
  }

  lemma PrefixFields(p: ThreatIpPrefix)
    requires p.Valid()
    ensures p.prefix < 256
    ensures var bs := EncodePrefix(p);
            bs[0] == (if p.addr.family.Inet? then 4 else 6) && bs[1] == p.prefix && FromBytes(bs[2..]) == p.addr.value
  {
    var bs := EncodePrefix(p);
    assert bs[2..] == ToBytes(p.addr.value, 16);
    CapacityOfAddress(|bs[2..]|);
    NumberRoundTrip(p.addr.value, |bs[2..]|);
  }

  lemma PrefixRoundTrip(p: ThreatIpPrefix)
    requires p.Valid()
    ensures p.prefix < 256 && DecodePrefix(EncodePrefix(p)) == Some(p)
  {
    PrefixFields(p);
  }

  lemma {:induction false} PrefixesRoundTrip(ps: seq<ThreatIpPrefix>)
    requires AllValid(ps)
    ensures forall i | 0 <= i < |ps| :: ps[i].prefix < 256
    ensures DecodePrefixes(EncodePrefixes(ps), |ps|) == Some(ps)
  {
    if ps != [] {
      var init, last := ps[..|ps| - 1], ps[|ps| - 1];
      PrefixesRoundTrip(init);
      PrefixRoundTrip(last);
      forall i | 0 <= i < |ps| ensures ps[i].prefix < 256 { assert ps[i].Valid(); }
      var bs, cut := EncodePrefixes(ps), (|ps| - 1) * RECORD;
      assert bs[..cut] == EncodePrefixes(init);
      assert bs[cut..] == EncodePrefix(last);
      assert init + [last] == ps;
    }
  }

  lemma ThreatHeaderRoundTrip(createdAt: nat, count: nat, tail: seq<byte>)
    requires createdAt < Capacity(8) && count < Capacity(4)
    ensures DecodeThreatHeader(EncodeThreatHeader(createdAt, count) + tail) == Some((createdAt, count))
    ensures (EncodeThreatHeader(createdAt, count) + tail)[RECORD..] == tail
  {
    Slices4(THREAT_MAGIC, ToBytes(CACHE_VERSION, 2), ToBytes(createdAt, 8), ToBytes(count, 4), tail);
    NumberRoundTrip(CACHE_VERSION, 2);
    NumberRoundTrip(createdAt, 8);
    NumberRoundTrip(count, 4);
  }

  lemma Slices4(a: seq<byte>, b: seq<byte>, c: seq<byte>, d: seq<byte>, tail: seq<byte>)
    requires |a| == 4 && |b| == 2 && |c| == 8 && |d| == 4
    ensures var bs := a + b + c + d + tail;
            bs[..4] == a && bs[4..6] == b && bs[6..14] == c && bs[14..18] == d && bs[18..] == tail
  {
  }

  /**
   A built threat snapshot survives the cache, with its prefixes, both merged vectors and its date, if and only if
   the number of its prefixes fits 32 bits.
   */
  lemma ThreatCacheRoundTripIff(ps: seq<ThreatIpPrefix>, now: nat)
    requires AllValid(ps) && now < Capacity(8)
    ensures forall i | 0 <= i < |BuildThreatSnapshot(ps, now).prefixes| :: BuildThreatSnapshot(ps, now).prefixes[i].prefix < 256
    ensures DecodeThreatCache(EncodeThreatCache(BuildThreatSnapshot(ps, now))) == Some(BuildThreatSnapshot(ps, now))
            <==> |BuildThreatSnapshot(ps, now).prefixes| < 0x1_0000_0000
  {
    var s := BuildThreatSnapshot(ps, now);
    RebuildIsIdentity(ps, now);
    PrefixesRoundTrip(s.prefixes);
    var records, count := EncodePrefixes(s.prefixes), Count32(|s.prefixes|);
    assert Capacity(4) == 0x1_0000_0000;
    ThreatHeaderRoundTrip(now, count, records);
    assert |EncodeThreatCache(s)| == RECORD + |s.prefixes| * RECORD;
  }

  // ---------------------------------------------------------------------------------------------
  // The layout of the caches, byte by byte
  // ---------------------------------------------------------------------------------------------

  /** The number whose big-endian bytes stand at a position, the most significant first. */
  function BigEndian(bs: seq<byte>, at: nat, width: nat): nat
    requires at + width <= |bs|
    decreases width
  {
    if width == 0 then 0 else bs[at] * Capacity(width - 1) + BigEndian(bs, at + 1, width - 1)
  }

  lemma {:induction false} BigEndianSnoc(bs: seq<byte>, at: nat, width: nat)
    requires at + width < |bs|
    ensures BigEndian(bs, at, width + 1) == 256 * BigEndian(bs, at, width) + bs[at + width]
    decreases width
  {
    if width > 0 {
      BigEndianSnoc(bs, at + 1, width - 1);
    }
  }

  /** What is written as a number reads as that number, most significant byte first. */
  lemma {:induction false} WrittenBigEndian(bs: seq<byte>, at: nat, n: nat, width: nat)
    requires at + width <= |bs| && bs[at..at + width] == ToBytes(n, width) && n < Capacity(width)
    ensures BigEndian(bs, at, width) == n
    decreases width
  {
    if width > 0 {
      var part, init := ToBytes(n, width), ToBytes(n / 256, width - 1);
      assert bs[at..at + width][..width - 1] == bs[at..at + (width - 1)];
      assert part[..width - 1] == init;
      WrittenBigEndian(bs, at, n / 256, width - 1);
      BigEndianSnoc(bs, at, width - 1);
      assert bs[at..at + width][width - 1] == bs[at + (width - 1)];
    }
  }

  /** Records of a size take that many bytes each. */
  lemma {:induction false} TotalIs(count: nat, size: nat)
    ensures Total(count, size) == count * size
  {
    if count > 0 {
      TotalIs(count - 1, size);
    }
  }

  /** Record `i` of an encoded list. */
  lemma {:induction false} ListElement<T>(f: T -> seq<byte>, size: nat, xs: seq<T>, i: nat)
    requires i < |xs| && forall j | 0 <= j < |xs| :: |f(xs[j])| == size
    ensures |EncodeList(f, xs)| == Total(|xs|, size) >= Total(i, size) + size
    ensures EncodeList(f, xs)[Total(i, size)..Total(i, size) + size] == f(xs[i])
  {
    var n := |xs| - 1;
    var init := xs[..n];
    ListSize(f, size, init);
    if i < n {
      ListElement(f, size, init, i);
    }
  }

  lemma {:induction false} ListSize<T>(f: T -> seq<byte>, size: nat, xs: seq<T>)
    requires forall j | 0 <= j < |xs| :: |f(xs[j])| == size
    ensures |EncodeList(f, xs)| == Total(|xs|, size)
  {
    if xs != [] {
      ListSize(f, size, xs[..|xs| - 1]);
    }
  }

  /** One range at a position: start, end and country, in this order. */
  ghost predicate RangeAt(bs: seq<byte>, at: nat, r: Range, width: nat) {
    && at + 2 * width + 2 <= |bs|
    && BigEndian(bs, at, width) == r.start && BigEndian(bs, at + width, width) == r.end
    && BigEndian(bs, at + 2 * width, 2) == r.country
  }

  lemma EncodedRangeAt(bs: seq<byte>, at: nat, r: Range, width: nat)
    requires Fits(r, width) && at + 2 * width + 2 <= |bs| && bs[at..at + 2 * width + 2] == EncodeRange(r, width)
    ensures RangeAt(bs, at, r, width)
  {
    var size, two := 2 * width + 2, 2 * width;
    var record := bs[at..at + size];
    SliceOfSlice(bs, at, size, 0, width);
    SliceOfSlice(bs, at, size, width, two);
    SliceOfSlice(bs, at, size, two, size);
    assert record[0..width] == ToBytes(r.start, width);
    assert record[width..two] == ToBytes(r.end, width);
    assert record[two..size] == ToBytes(r.country, 2);
    WrittenBigEndian(bs, at, r.start, width);
    WrittenBigEndian(bs, at + width, r.end, width);
    WrittenBigEndian(bs, at + two, r.country, 2);
  }

  /** The records of all ranges, one after the other from a position. */
  ghost predicate RangesFrom(bs: seq<byte>, at: nat, rs: seq<Range>, width: nat) {
    && at + Total(|rs|, RecordSize(width)) <= |bs|
    && forall i | 0 <= i < |rs| :: RangeAt(bs, at + Total(i, RecordSize(width)), rs[i], width)
  }

  lemma EncodedRangesFrom(bs: seq<byte>, at: nat, rs: seq<Range>, width: nat)
    requires forall j | 0 <= j < |rs| :: Fits(rs[j], width)
    requires at + |EncodeRanges(rs, width)| <= |bs| && bs[at..at + |EncodeRanges(rs, width)|] == EncodeRanges(rs, width)
    ensures RangesFrom(bs, at, rs, width)
  {
    var size, all := RecordSize(width), EncodeRanges(rs, width);
    ListSize(Encoder(width), size, rs);
    forall i | 0 <= i < |rs|
      ensures RangeAt(bs, at + Total(i, size), rs[i], width)
    {
      ListElement(Encoder(width), size, rs, i);
      SliceOfSlice(bs, at, |all|, Total(i, size), Total(i, size) + size);
      EncodedRangeAt(bs, at + Total(i, size), rs[i], width);
    }
  }

  /** The country cache begins with magic, version, date and both counts, in this order. */
  lemma CacheHeader(s: GeoSnapshot)
    requires Typed(s)
    ensures var bs := EncodeCache(s);
            && |bs| >= 22 && bs[..6] == [83, 71, 69, 79, 0, 1] && BigEndian(bs, 6, 8) == s.createdAt
            && BigEndian(bs, 14, 4) == |s.ipv4| % 0x1_0000_0000 && BigEndian(bs, 18, 4) == |s.ipv6| % 0x1_0000_0000
  {
    CountsAreTyped(s);
    CountIsCut(|s.ipv4|);
    CountIsCut(|s.ipv6|);
    CacheStart(s, HeaderOf(s), EncodeRanges(s.ipv4, V4_WIDTH) + EncodeRanges(s.ipv6, V6_WIDTH));
  }

  lemma CountIsCut(n: nat)
    ensures Count32(n) == n % 0x1_0000_0000
  {
  }

  lemma CacheStart(s: GeoSnapshot, h: Header, tail: seq<byte>)
    requires TypedHeader(h) && EncodeCache(s) == EncodeHeader(h) + tail
    ensures var bs := EncodeCache(s);
            && |bs| >= 22 && bs[..6] == [83, 71, 69, 79, 0, 1]
            && BigEndian(bs, 6, 8) == h.createdAt && BigEndian(bs, 14, 4) == h.v4 && BigEndian(bs, 18, 4) == h.v6
  {
    HeaderLayout(h, tail);
  }

  /** The records of both families follow, in this order, with addresses of 4 and of 16 bytes. */
  lemma CacheRecords(s: GeoSnapshot, w1: nat, w2: nat)
    requires Typed(s) && w1 == 4 && w2 == 16
    ensures var bs, next := EncodeCache(s), 22 + Total(|s.ipv4|, RecordSize(w1));
            && |bs| == next + Total(|s.ipv6|, RecordSize(w2))
            && RangesFrom(bs, 22, s.ipv4, w1) && RangesFrom(bs, next, s.ipv6, w2)
  {
    BodyLayout(EncodeHeader(HeaderOf(s)), s.ipv4, w1, s.ipv6, w2);
  }

  /** The size that the encoder reserves is the size of the cache. */
  lemma CacheSize(s: GeoSnapshot)
    requires Typed(s)
    ensures |EncodeCache(s)| == 22 + |s.ipv4| * 10 + |s.ipv6| * 34
  {
    var w1: nat, w2: nat :| w1 == 4 && w2 == 16;
    CacheRecords(s, w1, w2);
    var size1, size2 := RecordSize(w1), RecordSize(w2);
    TotalIs(|s.ipv4|, size1);
    TotalIs(|s.ipv6|, size2);
  }

  lemma BodyLayout(header: seq<byte>, first: seq<Range>, w1: nat, second: seq<Range>, w2: nat)
    requires forall j | 0 <= j < |first| :: Fits(first[j], w1)
    requires forall j | 0 <= j < |second| :: Fits(second[j], w2)
    ensures var bs, next := header + (EncodeRanges(first, w1) + EncodeRanges(second, w2)), |header| + Total(|first|, RecordSize(w1));
            && |bs| == next + Total(|second|, RecordSize(w2))
            && RangesFrom(bs, |header|, first, w1) && RangesFrom(bs, next, second, w2)
  {
    var a, b := EncodeRanges(first, w1), EncodeRanges(second, w2);
    RangesPlaced(header, first, w1, b);
    RangesPlaced(header + a, second, w2, []);
    Associate(header, a, b);
  }

  lemma Associate(a: seq<byte>, b: seq<byte>, c: seq<byte>)
    ensures a + (b + c) == a + b + c && a + b + c + [] == a + (b + c)
  {
  }

  lemma RangesPlaced(before: seq<byte>, rs: seq<Range>, width: nat, after: seq<byte>)
    requires forall j | 0 <= j < |rs| :: Fits(rs[j], width)
    ensures |EncodeRanges(rs, width)| == Total(|rs|, RecordSize(width))
    ensures RangesFrom(before + EncodeRanges(rs, width) + after, |before|, rs, width)
  {
    var all := EncodeRanges(rs, width);
    var bs := before + all + after;
    ListSize(Encoder(width), RecordSize(width), rs);
    assert bs[|before|..|before| + |all|] == all;
    EncodedRangesFrom(bs, |before|, rs, width);
  }

  lemma HeaderLayout(h: Header, tail: seq<byte>)
    requires TypedHeader(h)
    ensures var bs := EncodeHeader(h) + tail;
            && bs[..6] == [83, 71, 69, 79, 0, 1]
            && BigEndian(bs, 6, 8) == h.createdAt && BigEndian(bs, 14, 4) == h.v4 && BigEndian(bs, 18, 4) == h.v6
  {
    var bs := EncodeHeader(h) + tail;
    Slices(GEO_MAGIC, ToBytes(CACHE_VERSION, 2), ToBytes(h.createdAt, 8), ToBytes(h.v4, 4), ToBytes(h.v6, 4), tail);
    VersionBytes();
    assert bs[..6] == bs[..4] + bs[4..6];
    WrittenBigEndian(bs, 6, h.createdAt, 8);
    WrittenBigEndian(bs, 14, h.v4, 4);
    WrittenBigEndian(bs, 18, h.v6, 4);
  }

  lemma VersionBytes()
    ensures ToBytes(CACHE_VERSION, 2) == [0, 1]
  {
    assert ToBytes(0, 1) == [0];
  }

  /** The threat cache: magic, version, date, count, and per prefix its family, its length and 16 address bytes. */
  lemma ThreatLayout(s: ThreatSnapshot)
    requires AllValid(s.prefixes) && s.createdAt < Capacity(8)
    ensures forall i | 0 <= i < |s.prefixes| :: s.prefixes[i].prefix < 256
    ensures var bs := EncodeThreatCache(s);
            && |bs| == 18 + |s.prefixes| * 18
            && bs[..6] == [83, 84, 72, 82, 0, 1]
            && BigEndian(bs, 6, 8) == s.createdAt && BigEndian(bs, 14, 4) == |s.prefixes| % 0x1_0000_0000
            && forall i | 0 <= i < |s.prefixes| :: PrefixAt(bs, 18 + i * 18, s.prefixes[i])
  {
    PrefixesRoundTrip(s.prefixes);
    CountIsCut(|s.prefixes|);
    assert Capacity(4) == 0x1_0000_0000;
    ThreatHeaderLayout(s.createdAt, Count32(|s.prefixes|), EncodePrefixes(s.prefixes));
    forall i | 0 <= i < |s.prefixes|
      ensures PrefixAt(EncodeThreatCache(s), 18 + i * 18, s.prefixes[i])
    {
      ThreatRecordAt(s, i);
    }
  }

  lemma ThreatHeaderLayout(createdAt: nat, count: nat, tail: seq<byte>)
    requires createdAt < Capacity(8) && count < Capacity(4)
    ensures var bs := EncodeThreatHeader(createdAt, count) + tail;
            && bs[..6] == [83, 84, 72, 82, 0, 1]
            && BigEndian(bs, 6, 8) == createdAt && BigEndian(bs, 14, 4) == count
  {
    var bs := EncodeThreatHeader(createdAt, count) + tail;
    Slices4(THREAT_MAGIC, ToBytes(CACHE_VERSION, 2), ToBytes(createdAt, 8), ToBytes(count, 4), tail);
    VersionBytes();
    assert bs[..6] == bs[..4] + bs[4..6];
    WrittenBigEndian(bs, 6, createdAt, 8);
    WrittenBigEndian(bs, 14, count, 4);
  }

  lemma ThreatRecordAt(s: ThreatSnapshot, i: nat)
    requires AllValid(s.prefixes) && i < |s.prefixes| && forall j | 0 <= j < |s.prefixes| :: s.prefixes[j].prefix < 256
    ensures PrefixAt(EncodeThreatCache(s), 18 + i * 18, s.prefixes[i])
  {
    var header, records := EncodeThreatHeader(s.createdAt, Count32(|s.prefixes|)), EncodePrefixes(s.prefixes);
    PrefixRecord(s.prefixes, i);
    var at := i * 18;
    assert (header + records)[18 + at..18 + at + 18] == records[at..at + 18];
    EncodedPrefixAt(header + records, 18 + at, s.prefixes[i]);
  }

  ghost predicate PrefixAt(bs: seq<byte>, at: nat, p: ThreatIpPrefix) {
    && at + 18 <= |bs| && bs[at] == (if p.addr.family.Inet? then 4 else 6) && bs[at + 1] == p.prefix
    && BigEndian(bs, at + 2, 16) == p.addr.value
  }

  lemma {:induction false} PrefixRecord(ps: seq<ThreatIpPrefix>, i: nat)
    requires i < |ps| && forall j | 0 <= j < |ps| :: ps[j].prefix < 256
    ensures i * 18 + 18 <= |EncodePrefixes(ps)| && EncodePrefixes(ps)[i * 18..i * 18 + 18] == EncodePrefix(ps[i])
  {
    if i < |ps| - 1 {
      PrefixRecord(ps[..|ps| - 1], i);
    }
  }

  lemma EncodedPrefixAt(bs: seq<byte>, at: nat, p: ThreatIpPrefix)
    requires p.Valid() && p.prefix < 256 && at + 18 <= |bs| && bs[at..at + 18] == EncodePrefix(p)
    ensures PrefixAt(bs, at, p)
  {
    PrefixFields(p);
    var width: nat := |EncodePrefix(p)[2..]|;
    CapacityOfAddress(width);
    assert bs[at..at + 18][0] == bs[at] && bs[at..at + 18][1] == bs[at + 1];
    assert bs[at + 2..at + 2 + 16] == bs[at..at + 18][2..] == ToBytes(p.addr.value, 16);
    WrittenBigEndian(bs, at + 2, p.addr.value, width);
  }

  // ----- what the threat cache's decoder accepts

  /** Any bytes read as the number they spell. */
  lemma ReadBigEndian(bs: seq<byte>, at: nat, width: nat)
    requires at + width <= |bs|
    ensures FromBytes(bs[at..at + width]) == BigEndian(bs, at, width)
  {
    var slice := bs[at..at + width];
    BytesRoundTrip(slice);
    WrittenBigEndian(bs, at, FromBytes(slice), width);
  }

  /** A record of a known family whose prefix is not too long for it. */
  predicate RecordAccepted(bs: seq<byte>, at: nat) {
    at + 18 <= |bs| && ((bs[at] == 4 && bs[at + 1] <= 32) || (bs[at] == 6 && bs[at + 1] <= 128))
  }

  predicate AllAccepted(bs: seq<byte>, start: nat, count: nat) {
    forall i | 0 <= i < count :: RecordAccepted(bs, start + i * 18)
  }

  /** The record's prefix; of an IPv4 address the lowest 32 bits count. */
  predicate RecordReads(bs: seq<byte>, at: nat, p: ThreatIpPrefix) {
    && at + 18 <= |bs| && p.prefix == bs[at + 1]
    && var value := BigEndian(bs, at + 2, 16);
       p.addr == if bs[at] == 4 then IpAddr(Inet, value % 0x1_0000_0000) else IpAddr(Inet6, value)
  }

  predicate AllRead(bs: seq<byte>, start: nat, ps: seq<ThreatIpPrefix>) {
    forall i | 0 <= i < |ps| :: RecordReads(bs, start + i * 18, ps[i])
  }

  lemma RecordIsRead(bs: seq<byte>, at: nat, record: seq<byte>)
    requires at + 18 <= |bs| && record == bs[at..at + 18]
    ensures DecodePrefix(record).Some? <==> RecordAccepted(bs, at)
    ensures DecodePrefix(record).Some? ==> RecordReads(bs, at, DecodePrefix(record).value)
  {
    assert record[0] == bs[at] && record[1] == bs[at + 1];
    assert record[2..] == bs[at + 2..at + 2 + 16];
    ReadBigEndian(bs, at + 2, 16);
  }

  lemma {:induction false} RecordsAreRead(bs: seq<byte>, start: nat, count: nat, records: seq<byte>)
    requires |records| == count * RECORD && start + |records| <= |bs| && records == bs[start..start + |records|]
    ensures DecodePrefixes(records, count).Some? <==> AllAccepted(bs, start, count)
    ensures DecodePrefixes(records, count).Some? ==> AllRead(bs, start, DecodePrefixes(records, count).value)
  {
    if count > 0 {
      var n := count - 1;
      var cut := n * RECORD;
      SliceOfSlice(bs, start, |records|, 0, cut);
      SliceOfSlice(bs, start, |records|, cut, |records|);
      var init, last := records[..cut], records[cut..];
      assert init == records[0..cut] && last == records[cut..|records|];
      RecordsAreRead(bs, start, n, init);
      RecordIsRead(bs, start + cut, last);
      AllAcceptedNext(bs, start, n);
      if DecodePrefixes(init, n).Some? && DecodePrefix(last).Some? {
        AllReadNext(bs, start, DecodePrefixes(init, n).value, DecodePrefix(last).value);
      }
    }
  }

  lemma AllAcceptedNext(bs: seq<byte>, start: nat, n: nat)
    ensures AllAccepted(bs, start, n + 1) <==> AllAccepted(bs, start, n) && RecordAccepted(bs, start + n * 18)
  {
  }

  lemma AllReadNext(bs: seq<byte>, start: nat, ps: seq<ThreatIpPrefix>, p: ThreatIpPrefix)
    requires AllRead(bs, start, ps) && RecordReads(bs, start + |ps| * 18, p)
    ensures AllRead(bs, start, ps + [p])
  {
  }

  /**
   A threat cache is accepted exactly when magic, version, length and every record are as they should be, and is
   then the snapshot built from its records, with its date.
   */
  lemma ThreatAcceptedIff(bs: seq<byte>)
    ensures DecodeThreatCache(bs).Some? <==>
              && |bs| >= 18 && bs[..6] == [83, 84, 72, 82, 0, 1] && |bs| == 18 + BigEndian(bs, 14, 4) * 18
              && AllAccepted(bs, 18, BigEndian(bs, 14, 4))
    ensures DecodeThreatCache(bs).Some? ==>
              exists ps: seq<ThreatIpPrefix> ::
                && |ps| == BigEndian(bs, 14, 4) && AllValid(ps) && AllRead(bs, 18, ps)
                && DecodeThreatCache(bs) == Some(BuildThreatSnapshot(ps, BigEndian(bs, 6, 8)))
  {
    if |bs| >= 18 {
      ThreatHeaderReads(bs);
      var count := BigEndian(bs, 14, 4);
      if |bs| == 18 + count * 18 {
        RecordsAreRead(bs, 18, count, bs[RECORD..]);
      }
    }
  }

  lemma ThreatHeaderReads(bs: seq<byte>)
    requires |bs| >= 18
    ensures DecodeThreatHeader(bs) ==
              if bs[..6] == [83, 84, 72, 82, 0, 1] then Some((BigEndian(bs, 6, 8), BigEndian(bs, 14, 4))) else None
  {
    ReadBigEndian(bs, 6, 8);
    ReadBigEndian(bs, 14, 4);
    MagicAndVersion(bs);
  }

  lemma MagicAndVersion(bs: seq<byte>)
    requires |bs| >= 18
    ensures bs[..6] == [83, 84, 72, 82, 0, 1] <==> bs[..4] == THREAT_MAGIC && FromBytes(bs[4..6]) == CACHE_VERSION
  {
    assert bs[..6] == bs[..4] + bs[4..6];
    BytesRoundTrip(bs[4..6]);
    VersionBytes();
    NumberRoundTrip(CACHE_VERSION, 2);
  }
}
