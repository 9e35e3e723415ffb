/**
 What a header line is split into, in terms of a grammar: an element is a sequence of plain characters, quoted
 strings with escapes, and angle groups that may nest and may contain commas and quoted strings.
 */
module HeaderGrammar {
  import opened Wrappers
  import opened HeaderList

  datatype QuotedChar = Raw(c: char) | Escaped(c: char)

  datatype Piece =
    | Plain(c: char)
    | Quoted(content: seq<QuotedChar>)
    | Group(inner: seq<Piece>)

  function QuotedText(content: seq<QuotedChar>): string {
    if content == [] then ""
    else
      var last := content[|content| - 1];
      QuotedText(content[..|content| - 1]) + if last.Raw? then [last.c] else ['\\', last.c]
  }

  function Text(piece: Piece): string {
    match piece
    case Plain(c) => [c]
    case Quoted(content) => "\"" + QuotedText(content) + "\""
    case Group(inner) => "<" + TextOf(inner) + ">"
  }

  function TextOf(pieces: seq<Piece>): string {
    if pieces == [] then "" else TextOf(pieces[..|pieces| - 1]) + Text(pieces[|pieces| - 1])
  }

  predicate GoodQuoted(content: seq<QuotedChar>) {
    forall i | 0 <= i < |content| :: content[i].Raw? ==> content[i].c != '\"' && content[i].c != '\\'
  }

  /** Commas only inside groups; a closing bracket that closes nothing is a plain character. */
  predicate Good(piece: Piece, inGroup: bool) {
    match piece
    case Plain(c) => c != '\"' && c != '<' && c != if inGroup then '>' else ','
    case Quoted(content) => GoodQuoted(content)
    case Group(inner) => AllGood(inner, true)
  }

  predicate AllGood(pieces: seq<Piece>, inGroup: bool) {
    forall i | 0 <= i < |pieces| :: Good(pieces[i], inGroup)
  }

  /**
   A text that need not be complete: `levels[0]` and, each after a further opening bracket, the groups that are
   still open; then possibly an unclosed quote, which may end in a backslash.
   */
  datatype Partial = Partial(levels: seq<seq<Piece>>, quote: Option<seq<QuotedChar>>, dangling: bool)

  function LevelsText(levels: seq<seq<Piece>>): string {
    if levels == [] then ""
    else if |levels| == 1 then TextOf(levels[0])
    else LevelsText(levels[..|levels| - 1]) + "<" + TextOf(levels[|levels| - 1])
  }

  /** What an unclosed quote holds so far. */
  function QuoteBody(p: Partial): string
    requires p.quote.Some?
  {
    QuotedText(p.quote.value) + if p.dangling then "\\" else ""
  }

  function PartialText(p: Partial): string {
    LevelsText(p.levels) + if p.quote.None? then "" else "\"" + QuoteBody(p)
  }

  predicate GoodPartial(p: Partial) {
    && p.levels != [] && (forall i | 0 <= i < |p.levels| :: AllGood(p.levels[i], i > 0))
    && (p.quote.Some? ==> GoodQuoted(p.quote.value)) && (p.dangling ==> p.quote.Some?)
  }

  /** Where the scanner is after a partial text. */
  function ScanOf(p: Partial): Scan
    requires p.levels != []
  {
    Scan(p.quote.Some?, p.dangling, |p.levels| - 1)
  }

  // ----- the scanner follows the grammar

  lemma {:induction false} ScanConcat(s: Scan, a: string, b: string)
    ensures Scanned(s, a + b) == Scanned(Scanned(s, a), b)
    ensures Unsplit(s, a + b) <==> Unsplit(s, a) && Unsplit(Scanned(s, a), b)
    decreases |a|
  {
    if a == "" {
      assert a + b == b;
    } else {
      assert (a + b)[1..] == a[1..] + b;
      ScanConcat(Step(s, a[0]), a[1..], b);
    }
  }

  lemma ScanOne(s: Scan, c: char)
    ensures Scanned(s, [c]) == Step(s, c) && (Unsplit(s, [c]) <==> !Separates(s, c))
  {
    assert [c][1..] == "";
    assert Scanned(Step(s, c), "") == Step(s, c);
  }

  lemma {:induction false} ScanQuoted(content: seq<QuotedChar>, depth: nat)
    requires GoodQuoted(content)
    ensures var s := Scan(true, false, depth); Unsplit(s, QuotedText(content)) && Scanned(s, QuotedText(content)) == s
  {
    if content != [] {
      var n := |content| - 1;
      var s, init, last := Scan(true, false, depth), QuotedText(content[..n]), content[n];
      ScanQuoted(content[..n], depth);
      if last.Raw? {
        ScanConcat(s, init, [last.c]);
        ScanOne(s, last.c);
      } else {
        ScanConcat(s, init, ['\\', last.c]);
        ScanConcat(s, ['\\'], [last.c]);
        assert ['\\'] + [last.c] == ['\\', last.c];
        ScanOne(s, '\\');
        ScanOne(Scan(true, true, depth), last.c);
      }
    }
  }

  lemma ScanOpenQuote(content: seq<QuotedChar>, depth: nat)
    requires GoodQuoted(content)
    ensures var s := Scan(false, false, depth);
            Unsplit(s, "\"" + QuotedText(content)) && Scanned(s, "\"" + QuotedText(content)) == Scan(true, false, depth)
  {
    ScanOne(Scan(false, false, depth), '\"');
    ScanConcat(Scan(false, false, depth), "\"", QuotedText(content));
    ScanQuoted(content, depth);
  }

  lemma {:induction false} ScanPiece(piece: Piece, depth: nat)
    requires Good(piece, depth > 0)
    ensures var s := Scan(false, false, depth); Unsplit(s, Text(piece)) && Scanned(s, Text(piece)) == s
    decreases piece
  {
    var s := Scan(false, false, depth);
    match piece
    case Plain(c) => ScanOne(s, c);
    case Quoted(content) =>
      ScanOpenQuote(content, depth);
      ScanOne(Scan(true, false, depth), '\"');
      ScanConcat(s, "\"" + QuotedText(content), "\"");
    case Group(inner) =>
      ScanOne(s, '<');
      ScanPieces(inner, depth + 1);
      ScanConcat(s, "<", TextOf(inner));
      ScanOne(Scan(false, false, depth + 1), '>');
      ScanConcat(s, "<" + TextOf(inner), ">");
  }

  lemma {:induction false} ScanPieces(pieces: seq<Piece>, depth: nat)
    requires AllGood(pieces, depth > 0)
    ensures var s := Scan(false, false, depth); Unsplit(s, TextOf(pieces)) && Scanned(s, TextOf(pieces)) == s
    decreases pieces
  {
    if pieces != [] {
      var n := |pieces| - 1;
      ScanPieces(pieces[..n], depth);
      ScanPiece(pieces[n], depth);
      ScanConcat(Scan(false, false, depth), TextOf(pieces[..n]), Text(pieces[n]));
    }
  }

  lemma {:induction false} ScanLevels(levels: seq<seq<Piece>>)
    requires levels != [] && forall i | 0 <= i < |levels| :: AllGood(levels[i], i > 0)
    ensures Unsplit(START, LevelsText(levels)) && Scanned(START, LevelsText(levels)) == Scan(false, false, |levels| - 1)
  {
    var n := |levels| - 1;
    ScanPieces(levels[n], n);
    if n > 0 {
      ScanLevels(levels[..n]);
      var outer, here := LevelsText(levels[..n]), Scan(false, false, n - 1);
      ScanConcat(START, outer, "<");
      ScanOne(here, '<');
      ScanConcat(START, outer + "<", TextOf(levels[n]));
    }
  }

  /** Scanning a good partial text splits nowhere and ends where the text ends. */
  lemma ScanPartial(p: Partial)
    requires GoodPartial(p)
    ensures Unsplit(START, PartialText(p)) && Scanned(START, PartialText(p)) == ScanOf(p)
  {
    var text, depth := LevelsText(p.levels), |p.levels| - 1;
    ScanLevels(p.levels);
    if p.quote.None? {
      assert text + "" == text;
    } else {
      var quote := "\"" + QuotedText(p.quote.value);
      assert "\"" + QuoteBody(p) == quote + if p.dangling then "\\" else "";
      ScanOpenQuote(p.quote.value, depth);
      ScanConcat(START, text, quote);
      if p.dangling {
        ScanConcat(START, text + quote, "\\");
        ScanOne(Scan(true, false, depth), '\\');
        assert (text + quote) + "\\" == PartialText(p);
      } else {
        assert text + quote == PartialText(p);
      }
    }
  }

  // ----- the grammar follows the scanner

  function OnLast(p: Partial, piece: Piece): Partial
    requires p.levels != []
  {
    var n := |p.levels| - 1;
    p.(levels := p.levels[..n] + [p.levels[n] + [piece]])
  }

  /** The partial text one character further. */
  function Extend(p: Partial, c: char): Partial
    requires p.levels != []
  {
    var n := |p.levels| - 1;
    if p.quote.Some? then
      if p.dangling then p.(quote := Some(p.quote.value + [Escaped(c)]), dangling := false)
      else if c == '\\' then p.(dangling := true)
      else if c == '\"' then OnLast(p.(quote := None), Quoted(p.quote.value))
      else p.(quote := Some(p.quote.value + [Raw(c)]))
    else if c == '\"' then p.(quote := Some([]))
    else if c == '<' then p.(levels := p.levels + [[]])
    else if c == '>' && n > 0 then OnLast(p.(levels := p.levels[..n]), Group(p.levels[n]))
    else OnLast(p, Plain(c))
  }

  lemma LastText(levels: seq<seq<Piece>>, piece: Piece)
    requires levels != []
    ensures var n := |levels| - 1;
            LevelsText(levels[..n] + [levels[n] + [piece]]) == LevelsText(levels) + Text(piece)
  {
    var n := |levels| - 1;
    var before, last := levels[..n], levels[n] + [piece];
    var longer := before + [last];
    assert longer[..n] == before && longer[n] == last;
    assert last[..|levels[n]|] == levels[n];
    assert TextOf(last) == TextOf(levels[n]) + Text(piece);
    if n > 0 {
      Regroup(LevelsText(before) + "<", TextOf(levels[n]), Text(piece), "");
    }
  }

  lemma QuotedNext(content: seq<QuotedChar>, last: QuotedChar)
    ensures QuotedText(content + [last]) == QuotedText(content) + if last.Raw? then [last.c] else ['\\', last.c]
  {
    assert (content + [last])[..|content|] == content;
  }

  lemma Regroup(a: string, b: string, c: string, d: string)
    ensures a + (b + c) + d == a + (b + (c + d)) && a + b + c == a + (b + c)
    ensures a + (b + c + d) == a + (b + (c + d))
  {
  }

  /** One more character inside an unclosed quote, other than the quote that closes it. */
  lemma ExtendInQuote(p: Partial, c: char)
    requires GoodPartial(p) && p.quote.Some? && (p.dangling || c != '\"')
    ensures PartialText(Extend(p, c)) == PartialText(p) + [c] && GoodPartial(Extend(p, c))
  {
    BodyGrows(p, c);
    Regroup(LevelsText(p.levels), "\"", QuoteBody(p), [c]);
  }

  lemma BodyGrows(p: Partial, c: char)
    requires p.levels != [] && p.quote.Some? && (p.dangling || c != '\"')
    ensures Extend(p, c).levels == p.levels && Extend(p, c).quote.Some? && QuoteBody(Extend(p, c)) == QuoteBody(p) + [c]
  {
    var content := QuotedText(p.quote.value);
    if p.dangling {
      QuotedNext(p.quote.value, Escaped(c));
      assert content + ['\\', c] + "" == (content + "\\") + [c];
    } else if c == '\\' {
      assert (content + "") + [c] == content + "\\";
    } else {
      QuotedNext(p.quote.value, Raw(c));
      assert content + [c] + "" == (content + "") + [c];
    }
  }

  lemma ExtendByQuote(p: Partial)
    requires GoodPartial(p) && p.quote.Some? && !p.dangling
    ensures PartialText(Extend(p, '\"')) == PartialText(p) + "\"" && GoodPartial(Extend(p, '\"'))
  {
    var content := QuotedText(p.quote.value);
    LastText(p.levels, Quoted(p.quote.value));
    assert QuoteBody(p) == content + "" == content;
    Regroup(LevelsText(p.levels), "\"", content, "\"");
    assert PartialText(Extend(p, '\"')) == LevelsText(p.levels) + Text(Quoted(p.quote.value)) + "";
  }

  lemma ExtendOpen(p: Partial, c: char)
    requires GoodPartial(p) && p.quote.None? && !Separates(ScanOf(p), c)
    ensures PartialText(Extend(p, c)) == PartialText(p) + [c] && GoodPartial(Extend(p, c))
  {
    var n, text := |p.levels| - 1, LevelsText(p.levels);
    assert PartialText(p) == text + "" == text;
    if c == '\"' {
      assert "\"" + QuoteBody(Extend(p, c)) == [c];
    } else if c == '<' {
      ExtendByOpening(p);
    } else if c == '>' && n > 0 {
      ExtendByClosing(p);
    } else {
      ExtendByPlain(p, c);
    }
  }

  lemma ExtendByPlain(p: Partial, c: char)
    requires GoodPartial(p) && p.quote.None? && Good(Plain(c), |p.levels| > 1)
    ensures PartialText(OnLast(p, Plain(c))) == LevelsText(p.levels) + [c] && GoodPartial(OnLast(p, Plain(c)))
  {
    LastText(p.levels, Plain(c));
    assert PartialText(OnLast(p, Plain(c))) == (LevelsText(p.levels) + [c]) + "";
  }

  lemma ExtendByOpening(p: Partial)
    requires GoodPartial(p) && p.quote.None?
    ensures PartialText(Extend(p, '<')) == LevelsText(p.levels) + "<" && GoodPartial(Extend(p, '<'))
  {
    var deeper: seq<seq<Piece>> := p.levels + [[]];
    assert deeper[..|p.levels|] == p.levels && deeper[|p.levels|] == [];
    assert LevelsText(deeper) == LevelsText(p.levels) + "<" + "";
    assert AllGood([], true);
  }

  lemma ExtendByClosing(p: Partial)
    requires GoodPartial(p) && p.quote.None? && |p.levels| > 1
    ensures PartialText(Extend(p, '>')) == LevelsText(p.levels) + ">" && GoodPartial(Extend(p, '>'))
  {
    var n := |p.levels| - 1;
    var outer, inner := LevelsText(p.levels[..n]), TextOf(p.levels[n]);
    LastText(p.levels[..n], Group(p.levels[n]));
    Regroup(outer, "<", inner, ">");
    assert LevelsText(p.levels) == outer + "<" + inner;
    assert PartialText(Extend(p, '>')) == (outer + Text(Group(p.levels[n]))) + "";
  }

  lemma ExtendScan(p: Partial, c: char)
    requires p.levels != [] && (p.dangling ==> p.quote.Some?)
    ensures ScanOf(Extend(p, c)) == Step(ScanOf(p), c)
  {
  }

  /** Every text that the scanner does not split is a good partial text. */
  lemma {:induction false} ParseUnsplit(e: string) returns (p: Partial)
    requires Unsplit(START, e)
    ensures GoodPartial(p) && PartialText(p) == e && ScanOf(p) == Scanned(START, e)
  {
    if e == "" {
      p := Partial([[]], None, false);
    } else {
      var n := |e| - 1;
      assert e[..n] + [e[n]] == e;
      ScanConcat(START, e[..n], [e[n]]);
      ScanOne(Scanned(START, e[..n]), e[n]);
      var before := ParseUnsplit(e[..n]);
      ExtendScan(before, e[n]);
      if before.quote.Some? && !before.dangling && e[n] == '\"' {
        ExtendByQuote(before);
      } else if before.quote.Some? {
        ExtendInQuote(before, e[n]);
      } else {
        ExtendOpen(before, e[n]);
      }
      p := Extend(before, e[n]);
    }
  }

  // ----- the split

  /** Where the scan of a value from position `k` ends. */
  lemma {:induction false} SplitWhere(value: string, k: nat, s: Scan) returns (i: nat)
    requires k <= |value|
    ensures k <= i <= |value| && Unsplit(s, value[k..i])
    ensures i < |value| ==>
              && Separates(Scanned(s, value[k..i]), value[i])
              && SplitFrom(value, k, s) == Ok((value[..i], Some(value[i + 1..])))
    ensures i == |value| ==>
              SplitFrom(value, k, s) == if Scanned(s, value[k..i]).inQuotes then Err("unclosed quoted header value") else Ok((value, None))
    decreases |value| - k
  {
    if k == |value| || Separates(s, value[k]) {
      i := k;
    } else {
      i := SplitWhere(value, k + 1, Step(s, value[k]));
      assert value[k..i][1..] == value[k + 1..i];
    }
  }

  /** A complete text of the grammar, with no comma outside quotes and groups. */
  ghost predicate IsElement(e: string) {
    exists pieces: seq<Piece> :: AllGood(pieces, false) && e == TextOf(pieces)
  }

  /** A text of the grammar in which groups may still be open, with or without an unclosed quote at the end. */
  ghost predicate IsOpenText(e: string, unclosed: bool) {
    exists p: Partial :: GoodPartial(p) && e == PartialText(p) && p.quote.Some? == unclosed
  }

  /** The closed texts of the scanner are exactly the elements of the grammar. */
  lemma ClosedIffElement(e: string)
    ensures Closed(e) <==> IsElement(e)
  {
    if Closed(e) {
      var p := ParseUnsplit(e);
      assert p.levels == [p.levels[0]];
      assert e == TextOf(p.levels[0]);
    }
    if IsElement(e) {
      var pieces: seq<Piece> :| AllGood(pieces, false) && e == TextOf(pieces);
      ScanPieces(pieces, 0);
    }
  }

  /**
   The split of a line: at a comma exactly where a complete element ends, nowhere exactly if the line is one text
   of the grammar, and an error exactly for an unclosed quote.
   */
  lemma SplitIsGrammar(value: string)
    ensures forall first, rest ::
              SplitFirst(value) == Ok((first, Some(rest))) <==> value == first + "," + rest && IsElement(first)
    ensures SplitFirst(value) == Ok((value, None)) <==> IsOpenText(value, false)
    ensures SplitFirst(value).Err? <==> IsOpenText(value, true)
  {
    var i := SplitWhere(value, 0, START);
    assert value[0..i] == value[..i];
    var p := ParseUnsplit(value[..i]);
    if i == |value| {
      assert value[..i] == value;
      assert IsOpenText(value, p.quote.Some?);
    } else {
      assert Scanned(START, value[..i]) == START;
      assert Closed(value[..i]);
      ClosedIffElement(value[..i]);
      assert value == value[..i] + "," + value[i + 1..];
    }
    forall first, rest | value == first + "," + rest && IsElement(first)
      ensures SplitFirst(value) == Ok((first, Some(rest)))
    {
      ClosedIffElement(first);
      SplitJoined(first, rest);
    }
    forall unclosed | IsOpenText(value, unclosed)
      ensures if unclosed then SplitFirst(value).Err? else SplitFirst(value) == Ok((value, None))
    {
      var q: Partial :| GoodPartial(q) && value == PartialText(q) && q.quote.Some? == unclosed;
      ScanPartial(q);
      SplitSkips(value, 0, START, value);
    }
  }

  /**
   What a pop does to the first header of the name, well-formed or not: it takes the element before the comma and
   leaves what follows, trimmed, in the same place; a line without such a comma goes as a whole, as does what follows
   if it is blank; an unclosed quote is an error.
   */
  lemma PopEditsInPlace(headers: seq<Header>, name: string, i: nat, first: string, rest: string)
    requires i < |headers| && SameName(headers[i].name, name) && forall j | 0 <= j < i :: !SameName(headers[j].name, name)
    ensures IsElement(first) && headers[i].value == first + "," + rest ==>
              var left := if Trim(rest) == "" then [] else [Header(name, Trim(rest))];
              PopTop(headers, name) == Ok((Some(Trim(first)), headers[..i] + (left + headers[i + 1..])))
    ensures IsOpenText(headers[i].value, false) ==>
              PopTop(headers, name) == Ok((Some(Trim(headers[i].value)), headers[..i] + headers[i + 1..]))
    ensures IsOpenText(headers[i].value, true) ==> PopTop(headers, name).Err?
  {
    var value := headers[i].value;
    PopAt(headers, name, i);
    if IsElement(first) && value == first + "," + rest {
      ClosedIffElement(first);
      SplitJoined(first, rest);
    }
    SplitIsGrammar(value);
    assert Remainder(name, None) + headers[i + 1..] == headers[i + 1..];
  }

  /** Commas inside brackets or quotes do not split. */
  lemma CommasInside(s: string, rest: string)
    requires forall i | 0 <= i < |s| :: s[i] != '\"' && s[i] != '\\' && s[i] != '<' && s[i] != '>'
    ensures SplitFirst("<" + s + ">" + "," + rest) == Ok(("<" + s + ">", Some(rest)))
    ensures SplitFirst("\"" + s + "\"" + "," + rest) == Ok(("\"" + s + "\"", Some(rest)))
  {
    var plain := seq(|s|, i requires 0 <= i < |s| => Plain(s[i]));
    PlainText(s, plain);
    OnePiece(Group(plain));
    SplitIsGrammar("<" + s + ">" + "," + rest);
    var raw := seq(|s|, i requires 0 <= i < |s| => Raw(s[i]));
    RawText(s, raw);
    OnePiece(Quoted(raw));
    SplitIsGrammar("\"" + s + "\"" + "," + rest);
  }

  lemma OnePiece(piece: Piece)
    requires Good(piece, false)
    ensures IsElement(Text(piece))
  {
    var pieces := [piece];
    assert pieces[..0] == [];
    assert TextOf(pieces) == "" + Text(piece) == Text(piece);
    assert AllGood(pieces, false);
  }

  lemma {:induction false} RawText(s: string, content: seq<QuotedChar>)
    requires |content| == |s| && forall i | 0 <= i < |s| :: content[i] == Raw(s[i])
    ensures QuotedText(content) == s
  {
    if s != "" {
      RawText(s[..|s| - 1], content[..|s| - 1]);
    }
  }

  lemma {:induction false} PlainText(s: string, pieces: seq<Piece>)
    requires |pieces| == |s| && forall i | 0 <= i < |s| :: pieces[i] == Plain(s[i])
    ensures TextOf(pieces) == s
  {
    if s != "" {
      PlainText(s[..|s| - 1], pieces[..|s| - 1]);
    }
  }
}
