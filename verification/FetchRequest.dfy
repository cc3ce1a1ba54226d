/** A FETCH of a part of a body, from the request the client writes to the bytes it reads. */
module FetchRequest {
  import opened Common
  import opened Lexer
  import opened ParseBuf
  import opened Section
  import opened SectionRoundTrip
  import FetchIo

  // ---------- the request ----------

  /** `<start.size>`, and its pieces */
  function RangeText(start: nat, size: nat): string {
    "<" + Dec(start) + "." + Dec(size) + ">"
  }

  function RangePieces(start: nat, size: nat): seq<string> {
    ["<", Dec(start), ".", Dec(size), ">"]
  }

  /** What the client asks for: a section as the server prints it, and a part of it. */
  function RequestText(c: Closure, start: nat, size: nat): string {
    Print(c) + RangeText(start, size)
  }

  lemma DigitsRun(n: nat)
    ensures IsRun(Dec(n), DELIMS) && Plain(Dec(n))
  {
  }

  lemma RangeFollows(start: nat, size: nat)
    ensures Follow(RangePieces(start, size)) && Concat(RangePieces(start, size)) == RangeText(start, size)
  {
    DigitsRun(start);
    DigitsRun(size);
    OneDelimiter("<");
    OneDelimiter(".");
    OneDelimiter(">");
    FivePieces("<", Dec(start), ".", Dec(size), ">");
  }

  lemma FivePieces(a: string, b: string, c: string, d: string, e: string)
    requires IsDelimiter(a, DELIMS) && IsRun(b, DELIMS) && IsDelimiter(c, DELIMS)
    requires IsRun(d, DELIMS) && IsDelimiter(e, DELIMS)
    requires Plain(a) && Plain(b) && Plain(c) && Plain(d) && Plain(e)
    ensures Follow([a, b, c, d, e]) && Concat([a, b, c, d, e]) == a + b + c + d + e
  {
    hide Plain, IsRun, IsDelimiter, Concat;
    ConcatThree(a, b, c);
    ConcatTwo(d, e);
    ConcatAppend([a, b, c], [d, e]);
    assert [a, b, c] + [d, e] == [a, b, c, d, e];
    AppendAssoc(a + b + c, d, e);
  }

  lemma SubstringPieces(start: nat, size: nat, rest: seq<string>)
    requires start <= ULONG_MAX && size <= ULONG_MAX
    ensures ParseSubstring(RangePieces(start, size) + rest) == Ok((start, size, rest))
  {
    hide ParseNumber, Dec;
    var ps := RangePieces(start, size) + rest;
    NumberPieces("<", start, ".", [Dec(size), ">"] + rest, "Syntax error: expected .");
    NumberPieces(".", size, ">", rest, "Syntax error: expected >");
    assert ps == ["<", Dec(start), "."] + ([Dec(size), ">"] + rest);
    assert ["."] + ([Dec(size), ">"] + rest) == [".", Dec(size), ">"] + rest;
    assert ([">"] + rest)[1..] == rest;
  }

  lemma NumberPieces(before: string, n: nat, delim: string, rest: seq<string>, error: string)
    requires n <= ULONG_MAX && delim != []
    ensures ParseNumber([before, Dec(n), delim] + rest, delim[0], error) == Ok((n, [delim] + rest))
  {
    hide GetNumber, Dec;
    NumberOf(n);
    var ps := [before, Dec(n), delim] + rest;
    assert ps[1..][0] == Dec(n) && ps[1..][1..] == [delim] + rest;
  }

  /** Lexing, splitting and parsing a request for a part gives the section, the offset
      and the length it was written with, and leaves nothing over. */
  lemma RequestRoundTrip(c: Closure, start: nat, size: nat)
    requires Standard(c) && (c.fun == HeaderFields ==> PlainNames(c.headers))
    requires start <= ULONG_MAX && size <= ULONG_MAX
    ensures var ps := PiecesOfText(RequestText(c, start, size));
            |ps| > 1 && ps[0] == "BODY" && ParseBodyArgs(ps[1..]) == Ok(Some(Request(c, start, size, [])))
  {
    hide Print, Standard, PlainNames, Follow, ParseSection, ParseSubstring, PiecesOfText, HeadPieces, TailPieces;
    var range := RangePieces(start, size);
    RangeFollows(start, size);
    PrintedPieces(c, range);
    ParsePieces(c, range);
    SubstringPieces(start, size, []);
    assert range + [] == range;
    var ps := ["["] + HeadPieces(c) + TailPieces(c) + range;
    assert (["BODY"] + ps)[1..] == ps;
  }

  /** A request without a range asks for the whole text. */
  lemma WholeRequest(c: Closure)
    requires Standard(c) && (c.fun == HeaderFields ==> PlainNames(c.headers))
    ensures var ps := PiecesOfText(Print(c));
            |ps| > 1 && ps[0] == "BODY" && ParseBodyArgs(ps[1..]) == Ok(Some(Request(c, 0, WHOLE, [])))
  {
    hide Print, Standard, PlainNames, ParseSection, PiecesOfText;
    SectionRoundTrip.SectionRoundTrip(c);
  }

  // ---------- from the request to the bytes ----------

  /** What the server sends for a request: the section as it understood it, and the part
      of `text` that it names. */
  function AnswerTo(q: Request, text: string): string {
    Print(q.section) + FetchIo.Response(text, q.start, q.size)
  }

  /** The client's reading of the answer to what it asked: the section, then the offset
      and the bytes. */
  function ReadAnswer(c: Closure, s: string): Option<(nat, string, string)> {
    if Print(c) <= s then FetchIo.ReadPart(s[|Print(c)|..]) else None
  }

  /** From end to end: the server understands the request for a part, and the client
      reads from its answer the section and the offset it asked for and exactly that part
      of the text in CRLF form, whatever follows. */
  lemma PartFetched(c: Closure, text: string, start: nat, size: nat, rest: string)
    requires Standard(c) && (c.fun == HeaderFields ==> PlainNames(c.headers))
    requires start <= ULONG_MAX && size <= ULONG_MAX && !(start == 0 && size == WHOLE) && FetchIo.Fits(text)
    ensures var ps := PiecesOfText(RequestText(c, start, size));
            && |ps| > 1 && ParseBodyArgs(ps[1..]).Ok? && ParseBodyArgs(ps[1..]).value.Some?
            && var q := ParseBodyArgs(ps[1..]).value.value;
               ReadAnswer(c, AnswerTo(q, text) + rest) == Some((start, FetchIo.Wanted(text, start, size), rest))
  {
    hide Print, Standard, PlainNames, PiecesOfText, ParseBodyArgs, RequestText;
    RequestRoundTrip(c, start, size);
    AnswerRead(c, text, start, size, rest);
  }

  lemma AnswerRead(c: Closure, text: string, start: nat, size: nat, rest: string)
    requires start <= ULONG_MAX && !(start == 0 && size == WHOLE) && FetchIo.Fits(text)
    ensures ReadAnswer(c, AnswerTo(Request(c, start, size, []), text) + rest)
         == Some((start, FetchIo.Wanted(text, start, size), rest))
  {
    hide Print, FetchIo.Response, FetchIo.ReadPart, FetchIo.Wanted;
    FetchIo.ResponseRead(text, start, size, rest);
    AppendAssoc(Print(c), FetchIo.Response(text, start, size), rest);
    var s := AnswerTo(Request(c, start, size, []), text) + rest;
    assert s == Print(c) + (FetchIo.Response(text, start, size) + rest);
    assert s[|Print(c)|..] == FetchIo.Response(text, start, size) + rest;
  }
}
