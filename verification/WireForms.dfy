/** What goes over the wire, letter by letter: the literals of commands and responses, the
    sections of a FETCH, and the words they are made of. */
module WireForms {
  import opened Common
  import opened Lexer
  import opened ReadLine
  import opened Section
  import opened SectionRoundTrip
  import FetchIo

  // ---------- literals in commands ----------

  /** Section 4.3 of RFC 3501 and section 3 of RFC 2088: a number in braces announces a
      literal of that many octets, with or without a plus sign. */
  lemma MarkerForms(n: nat)
    requires n <= ULONG_MAX
    ensures Marker("{" + Dec(n) + "}") == Some(n) && Marker("{" + Dec(n) + "+}") == Some(n)
    ensures Synchronising("{" + Dec(n) + "}") && !Synchronising("{" + Dec(n) + "+}")
  {
    hide Strtoul, Dec;
    MarkerForm(n, "}");
    MarkerForm(n, "+}");
    assert "{" + Dec(n) + "}" == "{" + (Dec(n) + "}") && "{" + Dec(n) + "+}" == "{" + (Dec(n) + "+}");
  }

  lemma MarkerForm(n: nat, end: string)
    requires n <= ULONG_MAX && (end == "}" || end == "+}")
    ensures Marker("{" + (Dec(n) + end)) == Some(n) && (Synchronising("{" + (Dec(n) + end)) <==> end == "}")
  {
    hide Strtoul, Dec;
    var t := Dec(n) + end;
    var s := "{" + t;
    StrtoulDec(n, end);
    assert s[1..] == t && t[|Dec(n)|] == end[0] && s[1 + |Dec(n)|] == end[0];
    assert s[|s| - 1] == '}';
  }

  /** A token that does not stand in braces announces nothing. */
  lemma NoMarker(arg: string)
    requires |arg| < 2 || arg[0] != '{' || arg[|arg| - 1] != '}'
    ensures Marker(arg) == None
  {
  }

  /** The marker of a literal, for which the client waits to be invited, or not. */
  function Announced(lit: string, wait: bool): string {
    if wait then "{" + Dec(|lit|) + "}" else "{" + Dec(|lit|) + "+}"
  }

  /** A line as a client sends it before a literal: printed items, a space, and the marker. */
  function LineBefore(items: seq<Spaced>, lit: string, wait: bool): string {
    Render(items) + " " + Announced(lit, wait)
  }

  lemma MarkerItem(lit: string, wait: bool)
    requires |lit| <= ULONG_MAX
    ensures var w := Announced(lit, wait); IsWord(w) && w[|w| - 1] == '}' && '"' !in w && '\n' !in w && NulFree(w)
  {
    hide Dec;
    var d := Dec(|lit|);
    forall i | 0 <= i < |d| ensures IsDigit(d[i]) {}
  }

  // ---------- no quoted string of a printed line is closed late ----------

  lemma NothingLate(a: Option<nat>)
    ensures a == None ==> Bump(a) == None
  {
  }

  lemma LateItem(x: Item, rest: string)
    requires GoodItem(x, false) && LateGap(rest) == None
    requires x.Word? ==> rest == [] || IsBlank(rest[0]) || IsParen(rest[0])
    ensures LateGap(ItemText(x) + rest) == None
  {
    hide Lex, LateGap;
    var t := ItemText(x) + rest;
    NothingLate(LateGap(rest));
    match x {
      case Paren(c) =>
        LexParenStep(t);
        assert t[1..] == rest;
      case Word(w) =>
        AtomSpanOf(w, rest);
        LexAtomStep(t);
        assert t[|w|..] == rest;
      case Quoted(u) => QuotedNotLate(u, rest);
    }
  }

  lemma QuotedNotLate(u: string, rest: string)
    requires !EndsInBackslash(u) && LateGap(rest) == None
    ensures LateGap(Quote(u) + rest) == None
  {
    hide Lex, LateGap, CloseQuote;
    var t, e := Quote(u) + rest, Escape(u);
    LexQuoteStep(t);
    CloseQuoteOfQuote(u, rest);
    assert t[|e| + 2..] == rest;
    EscapeEnd(u);
    assert e != [] ==> t[|e|] == e[|e| - 1];
  }

  lemma {:induction false} EscapeEnd(u: string)
    requires !EndsInBackslash(u)
    ensures Escape(u) == [] || Escape(u)[|Escape(u)| - 1] != '\\'
  {
    if u != [] {
      EscapeEnd(u[1..]);
    }
  }

  lemma LateBlanks(b: string, t: string)
    requires forall j :: 0 <= j < |b| ==> IsBlank(b[j])
    requires t != [] && !IsBlank(t[0])
    ensures LateGap(b + t) == LateGap(t)
  {
    BlankSpanOf(b, t);
    assert (b + t)[|b|..] == t;
    LexAt(t);
  }

  // ---------- a line and its literal ----------

  lemma MarkedLine(items: seq<Spaced>, w: string)
    requires GoodLine(items) && GoodBefore(items) && IsWord(w)
    ensures var all := items + [Spaced(" ", Word(w))]; GoodLine(all) && GoodBefore(all)
    ensures Render(items + [Spaced(" ", Word(w))]) == Render(items) + (" " + w)
  {
    hide IsWord;
    var one := [Spaced(" ", Word(w))];
    RenderAppend(items, one);
    RenderCons(one[0], []);
    assert one + [] == one && one == [Spaced(" ", Word(w))];
    assert " " + w + [] == " " + w;
  }

  /** No quoted string ends in a backslash, not even the last. */
  predicate GoodBefore(items: seq<Spaced>) {
    forall i :: 0 <= i < |items| ==> GoodItem(items[i].item, false)
  }

  lemma MarkedTokens(items: seq<Spaced>, w: string)
    ensures Tokens(items + [Spaced(" ", Word(w))]) == Tokens(items) + [w]
  {
  }

  lemma LineLetters(r: string, w: string)
    requires '\n' !in r && NulFree(r) && '\n' !in w && NulFree(w) && w != [] && w[|w| - 1] == '}'
    ensures var line := r + (" " + w);
            '\n' !in line && NulFree(line) && line != [] && !IsBlank(line[|line| - 1])
  {
    var line := r + (" " + w);
    assert line[|line| - 1] == w[|w| - 1];
    assert forall c :: c in line ==> c in r || c == ' ' || c in w;
  }

  /** Such a line and the literal are a segment of a command, whose tokens are those of the
      items and the octets of the literal. */
  lemma LiteralSegment(items: seq<Spaced>, lit: string, wait: bool)
    requires GoodLine(items) && GoodBefore(items) && '\n' !in Render(items) && NulFree(Render(items))
    requires 0 < |lit| <= ULONG_MAX && NulFree(lit) && !Wrapped(lit)
    ensures var s := Segment(LineBefore(items, lit, wait), lit);
            GoodSegment(s) && SegmentTokens(s) == Tokens(items) + [Decrlf(lit)]
            && (Synchronising(MarkerOf(s)) <==> wait)
  {
    hide GoodLine, GoodBefore, Render, Tokens, Lex, IsWord, Dec, Marker, Wrapped, NulFree, LateGap, Decrlf;
    hide Synchronising;
    var w := Announced(lit, wait);
    MarkerItem(lit, wait);
    MarkerForms(|lit|);
    MarkedLine(items, w);
    var all := items + [Spaced(" ", Word(w))];
    LexRender(all);
    LateNothing(all);
    LineLetters(Render(items), w);
    MarkedTokens(items, w);
    AppendAssoc(Render(items), " ", w);
    assert (Tokens(items) + [w])[..|Tokens(items)|] == Tokens(items);
  }

  // ---------- whole commands ----------

  /** A part of a command: items on a line, and the literal behind them. */
  datatype Chunk = Chunk(items: seq<Spaced>, lit: string, wait: bool)

  predicate GoodText(items: seq<Spaced>) {
    GoodLine(items) && GoodBefore(items) && '\n' !in Render(items) && NulFree(Render(items))
  }

  predicate GoodChunk(c: Chunk) {
    GoodText(c.items) && 0 < |c.lit| <= ULONG_MAX && NulFree(c.lit) && !Wrapped(c.lit)
  }

  /** What the client sends: lines that end in CR LF, and after each marker its literal. */
  function Sent(chunks: seq<Chunk>, last: seq<Spaced>): string {
    if chunks == [] then Render(last) + "\r\n"
    else LineBefore(chunks[0].items, chunks[0].lit, chunks[0].wait) + "\r\n" + chunks[0].lit + Sent(chunks[1..], last)
  }

  /** The arguments it means. */
  function Arguments(chunks: seq<Chunk>, last: seq<Spaced>): seq<string> {
    if chunks == [] then Tokens(last)
    else Tokens(chunks[0].items) + [Decrlf(chunks[0].lit)] + Arguments(chunks[1..], last)
  }

  function SegmentOf(c: Chunk): Segment {
    Segment(LineBefore(c.items, c.lit, c.wait), c.lit)
  }

  function SegmentsOf(chunks: seq<Chunk>): seq<Segment> {
    seq(|chunks|, i requires 0 <= i < |chunks| => SegmentOf(chunks[i]))
  }

  lemma ItemEnd(x: Item)
    requires GoodItem(x, false)
    ensures ItemText(x) != [] && !IsBlank(ItemText(x)[|ItemText(x)| - 1])
  {
    if x.Quoted? {
      assert ItemText(x)[|ItemText(x)| - 1] == '"';
    }
  }

  lemma {:induction false} RenderEnd(items: seq<Spaced>)
    requires GoodBefore(items)
    ensures items != [] ==> Render(items) != [] && !IsBlank(Render(items)[|Render(items)| - 1])
  {
    if items != [] {
      hide ItemText, GoodItem, GoodBefore, Render;
      var n := |items| - 1;
      var one := [items[n]];
      LastGood(items);
      ItemEnd(items[n].item);
      assert items == items[..n] + one;
      RenderAppend(items[..n], one);
      RenderCons(one[0], []);
      assert one + [] == one;
      NothingRendered();
      var t := ItemText(items[n].item);
      assert Render(one) == items[n].blanks + t;
      var r := Render(items[..n]) + (items[n].blanks + t);
      assert r[|r| - 1] == t[|t| - 1];
    }
  }

  lemma NothingRendered()
    ensures Render([]) == []
  {
  }

  lemma LastGood(items: seq<Spaced>)
    requires GoodBefore(items) && items != []
    ensures GoodItem(items[|items| - 1].item, false)
  {
  }

  lemma {:induction false} LateNothing(items: seq<Spaced>)
    requires GoodLine(items) && GoodBefore(items)
    ensures LateGap(Render(items)) == None
  {
    if items != [] {
      hide LateGap, ItemText, ItemToken, GoodLine, GoodItem, IsWord, BlankSpan;
      var x, more := items[0], items[1..];
      GoodTail(items);
      assert GoodBefore(more) by { assert forall i :: 0 <= i < |more| ==> more[i] == items[i + 1]; }
      LateNothing(more);
      var rest := Render(more);
      if more != [] && x.item.Word? {
        assert more[0] == items[1];
        RenderHead(more);
      }
      HeadGood(items);
      LateItem(x.item, rest);
      ItemHead(x.item, rest);
      LateBlanks(x.blanks, ItemText(x.item) + rest);
      RenderCons(x, more);
      AppendAssoc(x.blanks, ItemText(x.item), rest);
      assert items == [x] + more;
    }
  }

  lemma HeadGood(items: seq<Spaced>)
    requires GoodLine(items) && GoodBefore(items) && items != []
    ensures GoodItem(items[0].item, false) && GoodItem(items[0].item, true)
    ensures forall j :: 0 <= j < |items[0].blanks| ==> IsBlank(items[0].blanks[j])
    ensures |items| > 1 && items[0].item.Word? ==> items[1].item.Paren? || items[1].blanks != []
  {
  }

  lemma LastLine(last: seq<Spaced>)
    requires GoodText(last)
    ensures PlainLine(Render(last)) && Lex(Render(last)) == Some(Tokens(last))
  {
    hide GoodLine, GoodBefore, Render, Lex, LateGap, Tokens, NulFree;
    LexRender(last);
    LateNothing(last);
    RenderEnd(last);
    NothingRendered();
  }

  lemma ChunkSegment(c: Chunk)
    requires GoodChunk(c)
    ensures var s := SegmentOf(c);
            GoodSegment(s) && SegmentTokens(s) == Tokens(c.items) + [Decrlf(c.lit)]
            && (Synchronising(MarkerOf(s)) <==> c.wait)
  {
    LiteralSegment(c.items, c.lit, c.wait);
  }

  /** The literals that the client waits with. */
  function Waits(chunks: seq<Chunk>): nat {
    if chunks == [] then 0 else (if chunks[0].wait then 1 else 0) + Waits(chunks[1..])
  }

  lemma {:induction false} SentWire(chunks: seq<Chunk>, last: seq<Spaced>)
    requires GoodText(last) && forall i :: 0 <= i < |chunks| ==> GoodChunk(chunks[i])
    ensures var segs := SegmentsOf(chunks);
            && (forall i :: 0 <= i < |segs| ==> GoodSegment(segs[i])) && PlainLine(Render(last))
            && Sent(chunks, last) == Wire(segs, Render(last))
            && Arguments(chunks, last) == Expected(segs, Render(last))
            && Waits(chunks) == Invited(segs)
  {
    hide GoodChunk, GoodText, GoodSegment, PlainLine, SegmentTokens, LineBefore, Render, Lex, Tokens, Decrlf;
    hide Synchronising, MarkerOf;
    LastLine(last);
    if chunks != [] {
      ChunkSegment(chunks[0]);
      SentWire(chunks[1..], last);
      assert SegmentsOf(chunks)[1..] == SegmentsOf(chunks[1..]);
      forall i | 0 <= i < |chunks| ensures GoodSegment(SegmentsOf(chunks)[i]) {
        ChunkSegment(chunks[i]);
      }
    }
  }

  /** A command of any number of lines and literals is read as the words, the texts that
      were quoted and the octets of the literals that the client wrote, in order, and
      nothing behind it is touched; the server invites as many literals as the client
      waits with. */
  lemma CommandRead(chunks: seq<Chunk>, last: seq<Spaced>, rest: string)
    requires GoodText(last) && forall i :: 0 <= i < |chunks| ==> GoodChunk(chunks[i])
    requires var all := Arguments(chunks, last); all == [] || Marker(all[|all| - 1]).None?
    ensures ReadCommand([], Sent(chunks, last) + rest) == Command(Arguments(chunks, last), rest)
    ensures GoAheads([], Sent(chunks, last) + rest) == Waits(chunks)
  {
    hide GoodChunk, GoodText, GoodSegment, PlainLine, ReadCommand, Marker, Render, Sent, Wire, Expected, Arguments;
    hide GoAheads, Invited, Waits;
    SentWire(chunks, last);
    var segs := SegmentsOf(chunks);
    assert [] + Arguments(chunks, last) == Arguments(chunks, last);
    ReadWire([], segs, Render(last), rest);
    InviteWire([], segs, Render(last), rest);
  }

  lemma DecrlfStep(c: char, s: string)
    requires c != '\r'
    ensures Decrlf([c] + s) == [c] + Decrlf(s)
    ensures Decrlf(['\r', '\n'] + s) == ['\n'] + Decrlf(s)
  {
    hide Decrlf;
    DecrlfOther(c, s);
    DecrlfOther('\n', s);
    DecrlfPair(s);
  }

  lemma DecrlfOther(c: char, s: string)
    requires c != '\r'
    ensures Decrlf([c] + s) == [c] + Decrlf(s)
  {
    assert ([c] + s)[1..] == s;
  }

  lemma DecrlfPair(s: string)
    ensures Decrlf(['\r', '\n'] + s) == Decrlf(['\n'] + s)
  {
    assert (['\r', '\n'] + s)[1..] == ['\n'] + s;
  }

  /** Lines of text whose line ends are CR LF lose the CRs, and nothing else. */
  lemma {:induction false} DecrlfCrlf(s: string)
    requires '\r' !in s
    ensures Decrlf(FetchIo.Crlf(s)) == s
  {
    if s != [] {
      hide Decrlf, FetchIo.Crlf;
      var c, more := s[0], s[1..];
      assert c in s && forall d :: d in more ==> d in s;
      DecrlfCrlf(more);
      assert s == [c] + more;
      FetchIo.CrlfCons(c, more);
      DecrlfStep(c, FetchIo.Crlf(more));
    }
  }

  lemma {:induction false} DecrlfPlain(s: string)
    requires '\r' !in s
    ensures Decrlf(s) == s
  {
    if s != [] {
      assert s[0] in s && forall d :: d in s[1..] ==> d in s;
      DecrlfPlain(s[1..]);
      assert s == [s[0]] + s[1..];
    }
  }

  lemma {:induction false} EscapeLetters(t: string)
    ensures forall c :: c in Escape(t) ==> c in t || c == '\\'
  {
    if t != [] {
      EscapeLetters(t[1..]);
      assert t == [t[0]] + t[1..];
    }
  }

  /** A literal that is a quoted string is read as the text that was quoted. */
  lemma WrappedRead(t: string)
    requires NulFree(t) && '\r' !in t
    ensures Wrapped(Quote(t)) && LiteralArg(Quote(t)) == Some(t)
  {
    hide Unescape, Decrlf, Escape;
    var q, e := Quote(t), Escape(t);
    var body := t + "\"";
    EscapeLetters(t);
    UnescapeEscape(t, "\"");
    QuoteAlone();
    assert q[1..] == e + "\"" && q[0] == q[|q| - 1] == '"';
    assert forall c :: c in q ==> c == '"' || c in e;
    assert Unescape(q[1..]) == Some(body);
    assert '\r' !in body && NulFree(body);
    DecrlfPlain(body);
    assert body[..|body| - 1] == t;
  }

  lemma QuoteAlone()
    ensures Unescape("\"") == Some("\"")
  {
    assert "\""[1..] == [] && Unescape([]) == Some([]) && ['"'] + [] == "\"";
  }

  // ---------- text in responses ----------

  /** Every line end becomes CR LF, and the rest of a text stays. */
  lemma CrlfForm(a: string, b: string)
    requires '\n' !in a
    ensures FetchIo.Crlf(a + "\n" + b) == a + "\r\n" + FetchIo.Crlf(b) && FetchIo.Crlf(a) == a
    ensures FetchIo.Lines(a + "\n" + b) == 1 + FetchIo.Lines(b)
  {
    hide FetchIo.Crlf, FetchIo.Lines;
    CrlfPlain(a);
    FetchIo.CrlfAppend(a + "\n", b);
    FetchIo.CrlfAppend(a, "\n");
    CrlfNewline();
  }

  lemma CrlfNewline()
    ensures FetchIo.Crlf("\n") == "\r\n" && FetchIo.Lines("\n") == 1
  {
    assert "\n"[1..] == [] && FetchIo.Crlf([]) == [] && FetchIo.Lines([]) == 0;
  }

  lemma {:induction false} CrlfPlain(a: string)
    requires '\n' !in a
    ensures FetchIo.Crlf(a) == a && FetchIo.Lines(a) == 0
  {
    if a != [] {
      hide FetchIo.Crlf, FetchIo.Lines;
      assert a[0] in a && forall d :: d in a[1..] ==> d in a;
      CrlfPlain(a[1..]);
      FetchIo.CrlfCons(a[0], a[1..]);
      assert a == [a[0]] + a[1..];
    }
  }

  /** A whole text is a literal of its octets; a part of it, with the offset before it. */
  lemma ResponseForms(text: string, start: nat, size: nat)
    requires start < |FetchIo.Crlf(text)| && 0 < size && start + size <= |FetchIo.Crlf(text)| < WHOLE
    ensures var enc := FetchIo.Crlf(text);
            && FetchIo.Response(text, 0, WHOLE) == " {" + Dec(|enc|) + "}\r\n" + enc
            && FetchIo.Response(text, start, size)
               == "<" + Dec(start) + ">" + (" {" + Dec(size) + "}\r\n" + enc[start..start + size])
  {
    hide FetchIo.Crlf, FetchIo.Literal, Dec;
    var enc := FetchIo.Crlf(text);
    LiteralForm(enc);
    LiteralForm(enc[start..start + size]);
    PartForm(enc, start, size);
  }

  lemma LiteralForm(bytes: string)
    requires bytes != []
    ensures FetchIo.Literal(bytes) == " {" + Dec(|bytes|) + "}\r\n" + bytes
  {
    hide Dec;
  }

  lemma PartForm(enc: string, start: nat, size: nat)
    requires start + size <= |enc|
    ensures FetchIo.Part(enc, start, size) == enc[start..start + size]
  {
  }

  // ---------- sections ----------

  /** The sections of section 6.4.5 of RFC 3501, as they are written, for any list of part
      numbers, and what the server fetches for each. */
  lemma SectionForms(parts: seq<nat>, names: seq<string>)
    ensures var p := PrintParts(parts); var dot := if parts == [] then "" else ".";
            && Print(Closure(Body, None, [], false, [])) == "BODY[]"
            && (parts != [] ==> Print(Closure(BodyN, None, parts, false, [])) == "BODY[" + p + "]")
            && Print(Closure(Header, Some("HEADER"), parts, false, [])) == "BODY[" + p + dot + "HEADER" + "]"
            && Print(Closure(BodyText, Some("TEXT"), parts, false, [])) == "BODY[" + p + dot + "TEXT" + "]"
            && (parts != [] ==>
                  Print(Closure(Mime, Some("MIME"), parts, false, [])) == "BODY[" + p + dot + "MIME" + "]")
            && Print(Closure(HeaderFields, None, parts, false, names))
               == "BODY[" + p + dot + "HEADER.FIELDS (" + Join(names) + ")]"
            && Print(Closure(HeaderFields, None, parts, true, names))
               == "BODY[" + p + dot + "HEADER.FIELDS.NOT (" + Join(names) + ")]"
  {
    hide PrintParts, Join;
    var p := PrintParts(parts);
    var dot := if parts == [] then "" else ".";
    PrintNoParts();
    FieldsForm("BODY[" + p + dot, "HEADER.FIELDS", "", Join(names));
    FieldsForm("BODY[" + p + dot, "HEADER.FIELDS", ".NOT", Join(names));
    assert "BODY[" + p + (dot + "HEADER.FIELDS") == "BODY[" + p + dot + "HEADER.FIELDS";
    assert "BODY[" + p + (dot + "HEADER") == "BODY[" + p + dot + "HEADER";
    assert "BODY[" + p + (dot + "TEXT") == "BODY[" + p + dot + "TEXT";
    assert "BODY[" + p + (dot + "MIME") == "BODY[" + p + dot + "MIME";
  }

  lemma PrintNoParts()
    ensures PrintParts([]) == []
  {
  }

  lemma FieldsForm(head: string, fields: string, not_: string, names: string)
    requires fields == "HEADER.FIELDS" && (not_ == "" || not_ == ".NOT")
    ensures head + fields + "" + not_ + " (" + names + ")]"
         == head + (if not_ == "" then "HEADER.FIELDS (" else "HEADER.FIELDS.NOT (") + names + ")]"
  {
  }

  /** Reading any of them back: the handler, the part numbers and the names are those of
      the text. */
  lemma SectionsRead(parts: seq<nat>, names: seq<string>)
    requires (forall i :: 0 <= i < |parts| ==> parts[i] <= ULONG_MAX) && PlainNames(names)
    ensures Reads(Closure(Body, None, [], false, [])) && Reads(Closure(Header, Some("HEADER"), parts, false, []))
    ensures Reads(Closure(BodyText, Some("TEXT"), parts, false, []))
    ensures Reads(Closure(HeaderFields, None, parts, false, names))
    ensures Reads(Closure(HeaderFields, None, parts, true, names))
    ensures parts != [] ==>
              Reads(Closure(BodyN, None, parts, false, [])) && Reads(Closure(Mime, Some("MIME"), parts, false, []))
  {
    hide Print, ParseSection, PiecesOfText, PlainNames;
    forall c | Standard(c) && (c.fun == HeaderFields ==> PlainNames(c.headers)) ensures Reads(c) {
      SectionRoundTrip.SectionRoundTrip(c);
    }
  }

  /** The printed form of the section parses to it. */
  ghost predicate Reads(c: Closure) {
    var ps := PiecesOfText(Print(c));
    |ps| > 1 && ParseSection(ps[1..]) == Ok(Some((c, [])))
  }

  /** The header names that are left in one piece. */
  lemma PlainNameExactly(w: string)
    ensures PlainName(w) <==>
              && w != [] && w[0] != '"'
              && forall i :: 0 <= i < |w| ==>
                   w[i] !in {' ', '\t', '(', ')'} && w[i] !in {'.', '[', ']', '<', '>'}
  {
    if PlainName(w) {
      forall i | 0 <= i < |w| ensures w[i] !in {' ', '\t', '(', ')'} && w[i] !in {'.', '[', ']', '<', '>'} {
        assert !IsBlank(w[i]) && !IsParen(w[i]) && w[i] !in DELIMS;
        DelimiterSet(w[i]);
      }
    } else {
      assert forall c :: c in DELIMS <==> c in {'.', '[', ']', '<', '>'};
    }
  }

  lemma DelimiterSet(c: char)
    ensures c in DELIMS <==> c in {'.', '[', ']', '<', '>'}
    ensures c in HEADER_DELIMS <==> c in {'.', '[', ']', '<', '>'} || c in {'(', ')'}
  {
  }

  // ---------- what is refused ----------

  /** Sections that break off or go wrong, and what the server says of them. */
  lemma SectionErrors()
    ensures ParseSection(["["]) == Err("Too few arguments")
    ensures ParseSection(["[", "x", "]"]) == Err("Syntax error")
    ensures ParseSection(["[", "TEXT", "x"]) == Err("Syntax error: missing ]")
    ensures ParseSection(["[", "HEADER", ".", "x"]) == Err("Expected FIELDS")
  {
    SectionWords();
    assert ["[", "x", "]"][1..] == ["x", "]"];
    assert ["[", "TEXT", "x"][1..] == ["TEXT", "x"] && ["TEXT", "x"][1..] == ["x"];
    assert ["[", "HEADER", ".", "x"][1..] == ["HEADER", ".", "x"] && ["HEADER", ".", "x"][1..] == [".", "x"];
    assert [".", "x"][1..] == ["x"];
  }

  lemma SectionWords()
    ensures EqNoCase("TEXT", "TEXT") && EqNoCase("HEADER", "HEADER") && !EqNoCase("TEXT", "HEADER")
    ensures !EqNoCase("x", "HEADER") && !EqNoCase("x", "TEXT") && !EqNoCase("x", "FIELDS") && !EqNoCase("x", "NOT")
  {
    assert |Fold("x")| == 1 && |Fold("TEXT")| == |Fold("TEXT")| == 4 && |Fold("HEADER")| == |Fold("FIELDS")| == 6;
    assert |Fold("NOT")| == 3;
  }

  /** Lists of header names that go wrong. */
  lemma FieldErrors(c: Closure)
    ensures ParseFields([".", "x"], c) == Err("Expected NOT")
    ensures ParseFields(["x"], c) == Err("Syntax error: expected (")
    ensures ParseFields(["(", "["], c) == Err("Syntax error: unexpected delimiter")
    ensures ParseFields(["(", "Subject"], c) == Err("Too few arguments")
  {
    SectionWords();
    assert [".", "x"][1..] == ["x"] && ["(", "["][1..] == ["["] && ["(", "Subject"][1..] == ["Subject"];
  }

  /** Ranges that go wrong. */
  lemma RangeErrors(n: nat)
    requires n <= ULONG_MAX
    ensures ParseSubstring(["<", "x", "."]) == Err("Syntax error: expected number")
    ensures ParseSubstring(["<", Dec(n), ">"]) == Err("Syntax error: expected .")
    ensures ParseSubstring(["<", Dec(n), ".", Dec(n), "."]) == Err("Syntax error: expected >")
  {
    hide Dec, Strtoul;
    assert Dec(n) + [] == Dec(n);
    StrtoulDec(n, []);
    NoNumber();
    NumberErrors(n);
  }

  lemma NoNumber()
    ensures Strtoul("x").1 == 0
  {
  }

  lemma NumberErrors(n: nat)
    requires Strtoul(Dec(n)) == (n, |Dec(n)|) && Strtoul("x").1 == 0
    ensures ParseSubstring(["<", "x", "."]) == Err("Syntax error: expected number")
    ensures ParseSubstring(["<", Dec(n), ">"]) == Err("Syntax error: expected .")
    ensures ParseSubstring(["<", Dec(n), ".", Dec(n), "."]) == Err("Syntax error: expected >")
  {
    hide Dec, Strtoul;
    var d := Dec(n);
    assert ["<", "x", "."][1..] == ["x", "."];
    assert ["<", d, ">"][1..] == [d, ">"] && [d, ">"][1..] == [">"];
    var five := ["<", d, ".", d, "."];
    assert five[1..] == [d, ".", d, "."] && five[1..][1..] == [".", d, "."];
    assert [".", d, "."][1..] == [d, "."] && [d, "."][1..] == ["."];
  }
}
