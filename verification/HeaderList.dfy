/**
 Comma-separated SIP headers: splitting off the first element, popping it from a message, and the two
 uses of popping: undoing the proxy's own Via, and removing the routes that name the proxy.
 */
module HeaderList {
  import opened Wrappers

  // ----- trimming

  /** Unicode White_Space. */
  predicate IsSpace(c: char) {
    var n := c as int;
    || 9 <= n <= 13 || n == 0x20 || n == 0x85 || n == 0xA0 || n == 0x1680 || 0x2000 <= n <= 0x200A
    || n == 0x2028 || n == 0x2029 || n == 0x202F || n == 0x205F || n == 0x3000
  }

  function TrimStart(s: string): string {
    if s != "" && IsSpace(s[0]) then TrimStart(s[1..]) else s
  }

  function TrimEnd(s: string): string {
    if s != "" && IsSpace(s[|s| - 1]) then TrimEnd(s[..|s| - 1]) else s
  }

  function Trim(s: string): string {
    TrimEnd(TrimStart(s))
  }

  // ----- the scanner

  datatype Scan = Scan(inQuotes: bool, escaped: bool, angleDepth: nat)

  const START: Scan := Scan(false, false, 0)

  function Step(s: Scan, c: char): Scan {
    if s.escaped then s.(escaped := false)
    else if c == '\\' && s.inQuotes then s.(escaped := true)
    else if c == '\"' then s.(inQuotes := !s.inQuotes)
    else if c == '<' && !s.inQuotes then s.(angleDepth := s.angleDepth + 1)
    else if c == '>' && !s.inQuotes then s.(angleDepth := if s.angleDepth == 0 then 0 else s.angleDepth - 1)
    else s
  }

  /** A comma outside quotes and angle brackets. */
  predicate Separates(s: Scan, c: char) {
    !s.escaped && c == ',' && !s.inQuotes && s.angleDepth == 0
  }

  /** The first element and what follows its comma, scanning on from position `k` in state `s`. */
  function SplitFrom(value: string, k: nat, s: Scan): Result<(string, Option<string>)>
    requires k <= |value|
    decreases |value| - k
  {
    if k == |value| then
      if s.inQuotes then Err("unclosed quoted header value") else Ok((value, None))
    else if Separates(s, value[k]) then Ok((value[..k], Some(value[k + 1..])))
    else SplitFrom(value, k + 1, Step(s, value[k]))
  }

  function SplitFirst(value: string): Result<(string, Option<string>)> {
    SplitFrom(value, 0, START)
  }

  method SplitFirstHeaderValue(value: string) returns (r: Result<(string, Option<string>)>)
    ensures r == SplitFirst(value)
  {
    if value == "" {
      return Ok((value, None));
    }
    var inQuotes, escaped, angleDepth := false, false, 0 as nat;
    var index := 0;
    while index < |value|
      invariant 0 <= index <= |value|
      invariant SplitFrom(value, index, Scan(inQuotes, escaped, angleDepth)) == SplitFirst(value)
    {
      var ch := value[index];
      if escaped {
        escaped := false;
      } else if ch == '\\' && inQuotes {
        escaped := true;
      } else if ch == '\"' {
        inQuotes := !inQuotes;
      } else if ch == '<' && !inQuotes {
        angleDepth := angleDepth + 1;
      } else if ch == '>' && !inQuotes {
        angleDepth := if angleDepth == 0 then 0 else angleDepth - 1;
      } else if ch == ',' && !inQuotes && angleDepth == 0 {
        return Ok((value[..index], Some(value[index + 1..])));
      }
      index := index + 1;
    }
    if inQuotes {
      return Err("unclosed quoted header value");
    }
    return Ok((value, None));
  }

  // ----- popping from a list of headers

  datatype Header = Header(name: string, value: string)

  function LowerChar(c: char): char {
    if 'A' <= c <= 'Z' then (c as int + 32) as char else c
  }

  predicate SameName(a: string, b: string) {
    |a| == |b| && forall i | 0 <= i < |a| :: LowerChar(a[i]) == LowerChar(b[i])
  }

  function Cons(h: Header, r: Result<(Option<string>, seq<Header>)>): Result<(Option<string>, seq<Header>)> {
    match r
    case Ok((top, rest)) => Ok((top, [h] + rest))
    case Err(message) => Err(message)
  }

  /** What is left of a line after its first element, as header lines. */
  function Remainder(name: string, rest: Option<string>): seq<Header> {
    if rest.Some? && Trim(rest.value) != "" then [Header(name, Trim(rest.value))] else []
  }

  /** The first element of the first header of that name, and the headers without it. */
  function PopTop(headers: seq<Header>, name: string): Result<(Option<string>, seq<Header>)> {
    if headers == [] then Ok((None, []))
    else if !SameName(headers[0].name, name) then Cons(headers[0], PopTop(headers[1..], name))
    else
      match SplitFirst(headers[0].value)
      case Err(message) => Err(message)
      case Ok((top, rest)) => Ok((Some(Trim(top)), Remainder(name, rest) + headers[1..]))
  }

  function TopValue(headers: seq<Header>, name: string): Result<Option<string>> {
    match PopTop(headers, name)
    case Ok((top, _)) => Ok(top)
    case Err(message) => Err(message)
  }

  function Size(headers: seq<Header>): nat {
    if headers == [] then 0 else |headers[0].value| + 1 + Size(headers[1..])
  }

  lemma {:induction false} TrimShrinks(s: string)
    ensures |TrimStart(s)| <= |s| && |TrimEnd(s)| <= |s| && |Trim(s)| <= |s|
  {
    TrimStartShrinks(s);
    TrimEndShrinks(s);
    TrimEndShrinks(TrimStart(s));
  }

  lemma {:induction false} TrimStartShrinks(s: string)
    ensures |TrimStart(s)| <= |s|
  {
    if s != "" && IsSpace(s[0]) {
      TrimStartShrinks(s[1..]);
    }
  }

  lemma {:induction false} TrimEndShrinks(s: string)
    ensures |TrimEnd(s)| <= |s|
  {
    if s != "" && IsSpace(s[|s| - 1]) {
      TrimEndShrinks(s[..|s| - 1]);
    }
  }

  lemma {:induction false} SplitShrinks(value: string, k: nat, s: Scan)
    requires k <= |value| && SplitFrom(value, k, s).Ok?
    ensures SplitFrom(value, k, s).value.1.Some? ==> |SplitFrom(value, k, s).value.1.value| < |value|
    decreases |value| - k
  {
    if k < |value| && !Separates(s, value[k]) {
      SplitShrinks(value, k + 1, Step(s, value[k]));
    }
  }

  lemma {:induction false} SizeConcat(a: seq<Header>, b: seq<Header>)
    ensures Size(a + b) == Size(a) + Size(b)
  {
    if a == [] {
      assert a + b == b;
    } else {
      assert (a + b)[1..] == a[1..] + b;
      SizeConcat(a[1..], b);
    }
  }

  /** Every pop that finds something makes the headers smaller, well-formed or not. */
  lemma {:induction false} PopShrinks(headers: seq<Header>, name: string)
    requires PopTop(headers, name).Ok? && PopTop(headers, name).value.0.Some?
    ensures Size(PopTop(headers, name).value.1) < Size(headers)
  {
    if SameName(headers[0].name, name) {
      var rest := SplitFirst(headers[0].value).value.1;
      SplitShrinks(headers[0].value, 0, START);
      if rest.Some? {
        TrimShrinks(rest.value);
      }
      SizeConcat(Remainder(name, rest), headers[1..]);
    } else {
      PopShrinks(headers[1..], name);
    }
  }

  /** Pops routes while the top one is the proxy's own; an unreadable route ends it with a failure. */
  function PoppedOwn(headers: seq<Header>, own: string -> bool): (seq<Header>, bool)
    decreases Size(headers)
  {
    match PopTop(headers, "Route")
    case Err(_) => (headers, false)
    case Ok((None, _)) => (headers, true)
    case Ok((Some(top), rest)) =>
      if !own(top) then (headers, true)
      else
        PopShrinks(headers, "Route");
        PoppedOwn(rest, own)
  }

  class SipMessage {
    var headers: seq<Header>

    constructor (headers: seq<Header>)
      ensures this.headers == headers
    {
      this.headers := headers;
    }

    /** The position of the first header of that name. */
    method Find(name: string) returns (index: Option<nat>)
      ensures index.Some? ==> index.value < |headers| && SameName(headers[index.value].name, name)
      ensures forall i | 0 <= i < (if index.Some? then index.value else |headers|) :: !SameName(headers[i].name, name)
    {
      var i := 0;
      while i < |headers|
        invariant 0 <= i <= |headers|
        invariant forall j | 0 <= j < i :: !SameName(headers[j].name, name)
      {
        if SameName(headers[i].name, name) {
          return Some(i);
        }
        i := i + 1;
      }
      return None;
    }

    method PopTopHeaderValue(name: string) returns (r: Result<Option<string>>)
      modifies this
      ensures r == TopValue(old(headers), name)
      ensures headers == if PopTop(old(headers), name).Ok? then PopTop(old(headers), name).value.1 else old(headers)
    {
      var index := Find(name);
      match index {
        case None =>
          PopAt(headers, name, |headers|);
          assert headers + [] == headers;
          return Ok(None);
        case Some(i) =>
          PopAt(headers, name, i);
          var split := SplitFirstHeaderValue(headers[i].value);
          match split {
            case Err(message) => return Err(message);
            case Ok(parts) =>
              if parts.1.Some? && Trim(parts.1.value) != "" {
                headers := headers[i := Header(name, Trim(parts.1.value))];
              } else {
                headers := headers[..i] + headers[i + 1..];
              }
              return Ok(Some(Trim(parts.0)));
          }
      }
    }

    method TopHeaderValue(name: string) returns (r: Result<Option<string>>)
      ensures r == TopValue(headers, name)
    {
      var index := Find(name);
      match index {
        case None =>
          PopAt(headers, name, |headers|);
          return Ok(None);
        case Some(i) =>
          PopAt(headers, name, i);
          var split := SplitFirstHeaderValue(headers[i].value);
          match split {
            case Err(message) => return Err(message);
            case Ok(parts) => return Ok(Some(Trim(parts.0)));
          }
      }
    }

    method PrependVia(via: string)
      modifies this
      ensures headers == [Header("Via", via)] + old(headers)
      ensures Closed(via) ==> PopTop(headers, "Via") == Ok((Some(Trim(via)), old(headers)))
    {
      if Closed(via) {
        PrependThenPopRestores(headers, via);
      }
      headers := [Header("Via", via)] + headers;
    }

    method PopOwnRouteHeaders(own: string -> bool) returns (ok: bool)
      modifies this
      ensures (headers, ok) == PoppedOwn(old(headers), own)
    {
      while true
        invariant PoppedOwn(headers, own) == PoppedOwn(old(headers), own)
        decreases Size(headers)
      {
        var route := TopHeaderValue("Route");
        match route {
          case Err(_) => return false;
          case Ok(None) => return true;
          case Ok(Some(top)) =>
            if !own(top) {
              return true;
            }
            PopShrinks(headers, "Route");
            var popped := PopTopHeaderValue("Route");
        }
      }
    }
  }

  /** Popping works on the first header of the name, wherever it is. */
  lemma {:induction false} PopAt(headers: seq<Header>, name: string, i: nat)
    requires i <= |headers| && forall j | 0 <= j < i :: !SameName(headers[j].name, name)
    requires i < |headers| ==> SameName(headers[i].name, name)
    ensures i == |headers| ==> PopTop(headers, name) == Ok((None, headers))
    ensures i < |headers| ==>
              PopTop(headers, name) ==
              match SplitFirst(headers[i].value)
              case Err(message) => Err(message)
              case Ok((top, rest)) => Ok((Some(Trim(top)), headers[..i] + (Remainder(name, rest) + headers[i + 1..])))
    decreases |headers|
  {
    if headers != [] && i > 0 {
      PopAt(headers[1..], name, i - 1);
      assert headers == [headers[0]] + headers[1..];
      if i < |headers| {
        assert headers[..i] == [headers[0]] + headers[1..][..i - 1];
        assert headers[1..][i..] == headers[i + 1..];
        var split := SplitFirst(headers[i].value);
        if split.Ok? {
          ConsConcat(headers[0], headers[1..][..i - 1], Remainder(name, split.value.1) + headers[i + 1..]);
        }
      }
    } else if headers != [] {
      var split := SplitFirst(headers[0].value);
      if split.Ok? {
        var left := Remainder(name, split.value.1) + headers[1..];
        assert headers[..0] + left == left;
      }
    }
  }

  lemma ConsConcat(h: Header, a: seq<Header>, b: seq<Header>)
    ensures [h] + (a + b) == ([h] + a) + b
  {
  }

  // ---------------------------------------------------------------------------------------------
  // Well-formed lists
  // ---------------------------------------------------------------------------------------------

  function Scanned(s: Scan, e: string): Scan
    decreases |e|
  {
    if e == "" then s else Scanned(Step(s, e[0]), e[1..])
  }

  predicate Unsplit(s: Scan, e: string)
    decreases |e|
  {
    e == "" || (!Separates(s, e[0]) && Unsplit(Step(s, e[0]), e[1..]))
  }

  /** Quotes closed, angle brackets balanced, no comma outside them. */
  predicate Closed(e: string) {
    Unsplit(START, e) && Scanned(START, e) == START
  }

  predicate Element(e: string) {
    Closed(e) && Trim(e) != ""
  }

  predicate Elements(es: seq<string>) {
    forall i | 0 <= i < |es| :: Element(es[i])
  }

  function Join(es: seq<string>): string
    requires es != []
  {
    if |es| == 1 then es[0] else es[0] + "," + Join(es[1..])
  }

  function Trimmed(es: seq<string>): (r: seq<string>)
    ensures |r| == |es| && forall i | 0 <= i < |r| :: r[i] == Trim(es[i])
  {
    if es == [] then [] else [Trim(es[0])] + Trimmed(es[1..])
  }

  /** `value` is a line of one or more elements whose trimmed forms are `values`. */
  ghost predicate LineOf(value: string, values: seq<string>) {
    exists es: seq<string> :: es != [] && Elements(es) && value == Join(es) && values == Trimmed(es)
  }

  /** The header lines of that name, in order, hold exactly `values`, spread over them in any way. */
  ghost predicate Holds(headers: seq<Header>, name: string, values: seq<string>)
    decreases |headers|
  {
    if headers == [] then values == []
    else if !SameName(headers[0].name, name) then Holds(headers[1..], name, values)
    else exists k: nat :: k <= |values| && LineOf(headers[0].value, values[..k]) && Holds(headers[1..], name, values[k..])
  }

  /** The headers of other names, in order. */
  function Others(headers: seq<Header>, name: string): seq<Header> {
    if headers == [] then []
    else if SameName(headers[0].name, name) then Others(headers[1..], name)
    else [headers[0]] + Others(headers[1..], name)
  }

  // ----- splitting a well-formed line

  lemma {:induction false} SplitSkips(value: string, k: nat, s: Scan, e: string)
    requires k + |e| <= |value| && value[k..k + |e|] == e && Unsplit(s, e)
    ensures SplitFrom(value, k, s) == SplitFrom(value, k + |e|, Scanned(s, e))
    decreases |e|
  {
    if e != "" {
      assert value[k] == e[0];
      SplitSkips(value, k + 1, Step(s, e[0]), e[1..]);
    }
  }

  lemma SplitJoined(e: string, rest: string)
    requires Closed(e)
    ensures SplitFirst(e) == Ok((e, None))
    ensures SplitFirst(e + "," + rest) == Ok((e, Some(rest)))
  {
    SplitSkips(e, 0, START, e);
    var value := e + "," + rest;
    assert value[..|e|] == e && value[|e| + 1..] == rest;
    SplitSkips(value, 0, START, e);
  }

  // ----- trimming a well-formed line

  lemma {:induction false} TrimStartConcat(a: string, b: string)
    requires TrimStart(a) != ""
    ensures TrimStart(a + b) == TrimStart(a) + b
  {
    if IsSpace(a[0]) {
      assert (a + b)[1..] == a[1..] + b;
      TrimStartConcat(a[1..], b);
    }
  }

  lemma {:induction false} TrimEndConcat(a: string, b: string)
    requires TrimEnd(b) != ""
    ensures TrimEnd(a + b) == a + TrimEnd(b)
  {
    if IsSpace(b[|b| - 1]) {
      assert (a + b)[..|a + b| - 1] == a + b[..|b| - 1];
      TrimEndConcat(a, b[..|b| - 1]);
    }
  }

  /** Trimming from either side first is the same, and repeating it changes nothing. */
  lemma {:induction false} TrimFacts(s: string)
    ensures TrimStart(TrimEnd(s)) == Trim(s)
    ensures Trim(TrimStart(s)) == Trim(s) && Trim(TrimEnd(s)) == Trim(s)
    ensures Trim(s) != "" ==> TrimStart(s) != "" && TrimEnd(s) != ""
    decreases |s|
  {
    TrimIdempotent(s);
    if s != "" && IsSpace(s[0]) {
      TrimFacts(s[1..]);
      TrimSides(s);
    } else if s != "" {
      TrimEndKeepsFirst(s);
    }
    TrimIdempotent(TrimEnd(s));
  }

  lemma {:induction false} TrimIdempotent(s: string)
    ensures TrimStart(TrimStart(s)) == TrimStart(s) && TrimEnd(TrimEnd(s)) == TrimEnd(s)
  {
    TrimStartIdempotent(s);
    TrimEndIdempotent(s);
  }

  lemma {:induction false} TrimStartIdempotent(s: string)
    ensures TrimStart(TrimStart(s)) == TrimStart(s)
  {
    if s != "" && IsSpace(s[0]) {
      TrimStartIdempotent(s[1..]);
    }
  }

  lemma {:induction false} TrimEndIdempotent(s: string)
    ensures TrimEnd(TrimEnd(s)) == TrimEnd(s)
  {
    if s != "" && IsSpace(s[|s| - 1]) {
      TrimEndIdempotent(s[..|s| - 1]);
    }
  }

  lemma {:induction false} TrimEndKeepsFirst(s: string)
    requires s != "" && !IsSpace(s[0])
    ensures TrimEnd(s) != "" && TrimEnd(s)[0] == s[0]
  {
    if IsSpace(s[|s| - 1]) {
      TrimEndKeepsFirst(s[..|s| - 1]);
    }
  }

  lemma {:induction false} TrimSides(s: string)
    requires s != "" && IsSpace(s[0])
    ensures TrimStart(TrimEnd(s)) == TrimStart(TrimEnd(s[1..]))
    decreases |s|
  {
    if IsSpace(s[|s| - 1]) {
      if |s| == 1 {
        assert s[1..] == "" && s[..0] == "";
      } else {
        assert s[1..][..|s[1..]| - 1] == s[..|s| - 1][1..];
        TrimSides(s[..|s| - 1]);
      }
    } else {
      assert |s| > 1;
    }
  }

  lemma SpaceStep(s: Scan, c: char)
    requires IsSpace(c) && (s.escaped ==> s.inQuotes)
    ensures Step(s, c) == START <==> s == START
    ensures !Separates(s, c)
  {
  }

  lemma {:induction false} ScanSane(s: Scan, e: string)
    requires s.escaped ==> s.inQuotes
    ensures Scanned(s, e).escaped ==> Scanned(s, e).inQuotes
    decreases |e|
  {
    if e != "" {
      ScanSane(Step(s, e[0]), e[1..]);
    }
  }

  lemma {:induction false} ScannedSnoc(s: Scan, e: string, c: char)
    ensures Scanned(s, e + [c]) == Step(Scanned(s, e), c)
    ensures Unsplit(s, e + [c]) ==> Unsplit(s, e)
    decreases |e|
  {
    if e == "" {
      assert (e + [c])[1..] == "";
    } else {
      assert (e + [c])[1..] == e[1..] + [c];
      ScannedSnoc(Step(s, e[0]), e[1..], c);
    }
  }

  lemma {:induction false} TrimStartKeepsClosed(e: string)
    requires Closed(e)
    ensures Closed(TrimStart(e))
  {
    if e != "" && IsSpace(e[0]) {
      SpaceStep(START, e[0]);
      TrimStartKeepsClosed(e[1..]);
    }
  }

  lemma {:induction false} TrimEndKeepsClosed(e: string)
    requires Closed(e)
    ensures Closed(TrimEnd(e))
  {
    if e != "" && IsSpace(e[|e| - 1]) {
      var init, last := e[..|e| - 1], e[|e| - 1];
      assert init + [last] == e;
      ScannedSnoc(START, init, last);
      ScanSane(START, init);
      SpaceStep(Scanned(START, init), last);
      TrimEndKeepsClosed(init);
    }
  }

  lemma ElementTrims(e: string)
    requires Element(e)
    ensures Element(TrimStart(e)) && Element(TrimEnd(e)) && Element(Trim(e))
    ensures Trim(TrimStart(e)) == Trim(e) && Trim(TrimEnd(e)) == Trim(e) && Trim(Trim(e)) == Trim(e)
    ensures TrimStart(e) != "" && TrimEnd(e) != ""
  {
    TrimFacts(e);
    TrimStartKeepsClosed(e);
    TrimEndKeepsClosed(e);
    TrimEndKeepsClosed(TrimStart(e));
    TrimFacts(TrimStart(e));
  }

  /** Trimming the end of a joined line trims its last element. */
  lemma {:induction false} JoinTrimEnd(es: seq<string>) returns (out: seq<string>)
    requires es != [] && Elements(es)
    ensures out != [] && Elements(out) && Trimmed(out) == Trimmed(es)
    ensures Join(out) == TrimEnd(Join(es)) && TrimEnd(Join(es)) != ""
    decreases |es|
  {
    ElementTrims(es[0]);
    if |es| == 1 {
      out := [TrimEnd(es[0])];
    } else {
      var rest := JoinTrimEnd(es[1..]);
      out := [es[0]] + rest;
      assert out[1..] == rest;
      TrimEndConcat(es[0] + ",", Join(es[1..]));
    }
  }

  /** Trimming the start of a joined line trims its first element. */
  lemma JoinTrimStart(es: seq<string>) returns (out: seq<string>)
    requires es != [] && Elements(es)
    ensures out != [] && Elements(out) && Trimmed(out) == Trimmed(es)
    ensures Join(out) == TrimStart(Join(es))
  {
    ElementTrims(es[0]);
    out := [TrimStart(es[0])] + es[1..];
    assert out[1..] == es[1..];
    if |es| > 1 {
      var tail := "," + Join(es[1..]);
      TrimStartConcat(es[0], tail);
      assert Join(es) == es[0] + tail;
      assert Join(out) == TrimStart(es[0]) + tail;
    }
  }

  /** A trimmed line is a line of the same elements. */
  lemma TrimmedLine(es: seq<string>)
    requires es != [] && Elements(es)
    ensures Trim(Join(es)) != "" && LineOf(Trim(Join(es)), Trimmed(es))
  {
    var lead := JoinTrimStart(es);
    var out := JoinTrimEnd(lead);
  }

  // ----- popping a well-formed list

  /** Popping one line: its first value, and a line of the others if there are any. */
  lemma PopLine(value: string, values: seq<string>, name: string)
    requires LineOf(value, values)
    ensures values != [] && SplitFirst(value).Ok?
    ensures var (top, rest) := SplitFirst(value).value;
            Trim(top) == values[0]
            && (|values| == 1 ==> Remainder(name, rest) == [])
            && (|values| > 1 ==> |Remainder(name, rest)| == 1 && Remainder(name, rest)[0].name == name
                                  && LineOf(Remainder(name, rest)[0].value, values[1..]))
  {
    var es: seq<string> :| es != [] && Elements(es) && value == Join(es) && values == Trimmed(es);
    assert Element(es[0]);
    if |es| == 1 {
      SplitJoined(es[0], "");
    } else {
      SplitJoined(es[0], Join(es[1..]));
      TrimmedLine(es[1..]);
      assert Trimmed(es)[1..] == Trimmed(es[1..]);
    }
  }

  /**
   Popping a well-formed list returns its first value and leaves a list of the others; the headers of
   other names are untouched.
   */
  lemma {:induction false} PopReturnsFirst(headers: seq<Header>, name: string, values: seq<string>)
    requires Holds(headers, name, values)
    ensures PopTop(headers, name).Ok?
    ensures values == [] ==> PopTop(headers, name) == Ok((None, headers))
    ensures values != [] ==>
              var (top, rest) := PopTop(headers, name).value;
              top == Some(values[0]) && Holds(rest, name, values[1..]) && Others(rest, name) == Others(headers, name)
    decreases |headers|
  {
    if headers == [] {
    } else if !SameName(headers[0].name, name) {
      PopReturnsFirst(headers[1..], name, values);
      assert headers == [headers[0]] + headers[1..];
      if values != [] {
        var rest := PopTop(headers[1..], name).value.1;
        assert ([headers[0]] + rest)[1..] == rest;
      }
    } else {
      var k: nat :| k <= |values| && LineOf(headers[0].value, values[..k]) && Holds(headers[1..], name, values[k..]);
      PopLine(headers[0].value, values[..k], name);
      var rest := SplitFirst(headers[0].value).value.1;
      PoppedLineHolds(headers, name, values, k, Remainder(name, rest));
    }
  }

  lemma PoppedLineHolds(headers: seq<Header>, name: string, values: seq<string>, k: nat, left: seq<Header>)
    requires headers != [] && SameName(headers[0].name, name) && 1 <= k <= |values|
    requires Holds(headers[1..], name, values[k..])
    requires k == 1 ==> left == []
    requires k > 1 ==> |left| == 1 && left[0].name == name && LineOf(left[0].value, values[..k][1..])
    ensures Holds(left + headers[1..], name, values[1..]) && Others(left + headers[1..], name) == Others(headers, name)
  {
    if k == 1 {
      assert left + headers[1..] == headers[1..];
    } else {
      var all, tail := left + headers[1..], values[1..];
      assert all[1..] == headers[1..] && all[0] == left[0];
      assert tail[..k - 1] == values[..k][1..] && tail[k - 1..] == values[k..];
      assert SameName(all[0].name, name);
    }
  }

  /** The values a run of `n` pops returns, and the headers it leaves. */
  function PopMany(headers: seq<Header>, name: string, n: nat): (seq<Option<string>>, seq<Header>)
    decreases n
  {
    if n == 0 then ([], headers)
    else
      match PopTop(headers, name)
      case Err(_) => ([], headers)
      case Ok((top, rest)) =>
        var (more, left) := PopMany(rest, name, n - 1);
        ([top] + more, left)
  }

  /** The next `n` values of a list, and `None` once there are no more. */
  function NextValues(values: seq<string>, n: nat): (r: seq<Option<string>>)
    ensures |r| == n && forall i | 0 <= i < n :: r[i] == if i < |values| then Some(values[i]) else None
    decreases n
  {
    if n == 0 then []
    else if values == [] then [None] + NextValues([], n - 1)
    else [Some(values[0])] + NextValues(values[1..], n - 1)
  }

  /** What the first `n` pops leave of a list. */
  function Drop(values: seq<string>, n: nat): (r: seq<string>)
    ensures r == if n <= |values| then values[n..] else []
  {
    if n == 0 || values == [] then values else Drop(values[1..], n - 1)
  }

  /** Repeated pops return the values in order, and then nothing. */
  lemma {:induction false} PopsReturnInOrder(headers: seq<Header>, name: string, values: seq<string>, n: nat)
    requires Holds(headers, name, values)
    ensures PopsWell(PopMany(headers, name, n), headers, name, NextValues(values, n), Drop(values, n))
    decreases n
  {
    if n > 0 {
      var top, rest, tail := PopStep(headers, name, values, n);
      PopsReturnInOrder(rest, name, tail, n - 1);
      PopBefore(PopMany(headers, name, n), PopMany(rest, name, n - 1), top, headers, rest, name,
                NextValues(values, n), NextValues(tail, n - 1), Drop(values, n));
    }
  }

  /** The pops gave exactly these values, left a list of the others, and touched no header of another name. */
  ghost predicate PopsWell(popped: (seq<Option<string>>, seq<Header>), headers: seq<Header>, name: string,
                           tops: seq<Option<string>>, left: seq<string>)
  {
    popped.0 == tops && Holds(popped.1, name, left) && Others(popped.1, name) == Others(headers, name)
  }

  lemma PopBefore(all: (seq<Option<string>>, seq<Header>), more: (seq<Option<string>>, seq<Header>), top: Option<string>,
                  headers: seq<Header>, rest: seq<Header>, name: string,
                  tops: seq<Option<string>>, later: seq<Option<string>>, left: seq<string>)
    requires all == ([top] + more.0, more.1) && tops == [top] + later
    requires PopsWell(more, rest, name, later, left) && Others(rest, name) == Others(headers, name)
    ensures PopsWell(all, headers, name, tops, left)
  {
  }

  lemma PopStep(headers: seq<Header>, name: string, values: seq<string>, n: nat)
    returns (top: Option<string>, rest: seq<Header>, tail: seq<string>)
    requires n > 0 && Holds(headers, name, values)
    ensures PopMany(headers, name, n) == ([top] + PopMany(rest, name, n - 1).0, PopMany(rest, name, n - 1).1)
    ensures Holds(rest, name, tail) && Others(rest, name) == Others(headers, name)
    ensures NextValues(values, n) == [top] + NextValues(tail, n - 1) && Drop(values, n) == Drop(tail, n - 1)
  {
    PopReturnsFirst(headers, name, values);
    top, rest := PopTop(headers, name).value.0, PopTop(headers, name).value.1;
    tail := if values == [] then [] else values[1..];
  }

  /** Prepending a Via and popping the top one gives it back and restores every header. */
  lemma PrependThenPopRestores(headers: seq<Header>, via: string)
    requires Closed(via)
    ensures PopTop([Header("Via", via)] + headers, "Via") == Ok((Some(Trim(via)), headers))
  {
    SplitJoined(via, "");
    assert ([Header("Via", via)] + headers)[1..] == headers;
    assert SameName("Via", "Via");
    assert [] + headers == headers;
  }

  /** The length of the longest prefix of the proxy's own routes. */
  function OwnPrefix(values: seq<string>, own: string -> bool): (n: nat)
    ensures n <= |values| && forall i | 0 <= i < n :: own(values[i])
    ensures n < |values| ==> !own(values[n])
  {
    if values != [] && own(values[0]) then 1 + OwnPrefix(values[1..], own) else 0
  }

  /** On a well-formed Route list exactly the longest prefix of own routes is removed. */
  lemma {:induction false} OwnPrefixIsRemoved(headers: seq<Header>, values: seq<string>, own: string -> bool)
    requires Holds(headers, "Route", values)
    ensures var (left, ok) := PoppedOwn(headers, own);
            ok && Holds(left, "Route", values[OwnPrefix(values, own)..]) && Others(left, "Route") == Others(headers, "Route")
    decreases |values|
  {
    PopReturnsFirst(headers, "Route", values);
    if values != [] && own(values[0]) {
      OwnPrefixIsRemoved(PopTop(headers, "Route").value.1, values[1..], own);
      assert values[1..][OwnPrefix(values[1..], own)..] == values[OwnPrefix(values, own)..];
    }
  }

  // ----- what trimming, naming and the route loop mean

  /** Trimming takes white space off both ends and nothing else. */
  lemma {:induction false} TrimIsMiddle(s: string) returns (i: nat, j: nat)
    ensures i <= j <= |s| && Trim(s) == s[i..j]
    ensures forall k | 0 <= k < i || j <= k < |s| :: IsSpace(s[k])
    ensures i < j ==> !IsSpace(s[i]) && !IsSpace(s[j - 1])
    decreases |s|
  {
    if s == "" {
      i, j := 0, 0;
    } else if IsSpace(s[0]) {
      var a, b := TrimIsMiddle(s[1..]);
      i, j := a + 1, b + 1;
      assert s[1..][a..b] == s[i..j];
      assert forall k | 0 < k < |s| :: s[k] == s[1..][k - 1];
    } else {
      i := 0;
      j := TrimEndIsPrefix(s);
    }
  }

  lemma {:induction false} TrimEndIsPrefix(s: string) returns (j: nat)
    ensures j <= |s| && TrimEnd(s) == s[..j]
    ensures forall k | j <= k < |s| :: IsSpace(s[k])
    ensures j > 0 ==> !IsSpace(s[j - 1])
    decreases |s|
  {
    if s != "" && IsSpace(s[|s| - 1]) {
      j := TrimEndIsPrefix(s[..|s| - 1]);
      assert s[..|s| - 1][..j] == s[..j];
    } else {
      j := |s|;
    }
  }

  /** Header names are the same if they differ at most in the case of ASCII letters. */
  lemma SameNameIff(a: string, b: string)
    ensures SameName(a, b) <==>
              && |a| == |b|
              && forall i | 0 <= i < |a| ::
                   || a[i] == b[i]
                   || ('A' <= a[i] <= 'Z' && b[i] as int == a[i] as int + 32)
                   || ('A' <= b[i] <= 'Z' && a[i] as int == b[i] as int + 32)
  {
  }

  /**
   On every message the loop pops own routes, one after the other, and stops exactly at one that is not its own,
   at none, or at one that cannot be read, which alone is a failure.
   */
  lemma {:induction false} RouteLoopStops(headers: seq<Header>, own: string -> bool) returns (n: nat)
    ensures var popped: (seq<Option<string>>, seq<Header>) := PopMany(headers, "Route", n);
            popped.1 == PoppedOwn(headers, own).0 && |popped.0| == n
            && forall i | 0 <= i < n :: popped.0[i].Some? && own(popped.0[i].value)
    ensures var (result, ok) := PoppedOwn(headers, own);
            && (ok <==> TopValue(result, "Route").Ok?)
            && (ok && TopValue(result, "Route").value.Some? ==> !own(TopValue(result, "Route").value.value))
    decreases Size(headers)
  {
    var popped := PopTop(headers, "Route");
    if popped.Ok? && popped.value.0.Some? && own(popped.value.0.value) {
      PopShrinks(headers, "Route");
      var rest := RouteLoopStops(popped.value.1, own);
      n := rest + 1;
    } else {
      n := 0;
    }
  }
}
