/** Reading one command: its line segments, and the literals spliced between them. */
module ReadLine {
  import opened Common
  import opened Lexer

  // ---------- the command as a function of the client's bytes ----------

  /** Splits the input after its first newline. */
  function TakeLine(input: string): (r: Option<(string, string)>)
    ensures r.Some? ==> input == r.value.0 + r.value.1 && |r.value.0| > 0
    ensures r.Some? ==> r.value.0[|r.value.0| - 1] == '\n' && '\n' !in r.value.0[..|r.value.0| - 1]
    ensures r.None? ==> '\n' !in input
  {
    if input == [] then None
    else if input[0] == '\n' then Some((input[..1], input[1..]))
    else
      match TakeLine(input[1..])
      case None => None
      case Some(p) => Some(([input[0]] + p.0, p.1))
  }

  function TrimBlanks(s: string): (r: string)
    ensures r <= s
    ensures r != [] ==> !IsBlank(r[|r| - 1])
  {
    if s != [] && IsBlank(s[|s| - 1]) then TrimBlanks(s[..|s| - 1]) else s
  }

  function TrimCr(s: string): (r: string)
    ensures r <= s
  {
    if s != [] && s[|s| - 1] == '\r' then s[..|s| - 1] else s
  }

  /** A line without its end-of-line characters and trailing blanks. */
  function Trim(raw: string): (r: string)
    requires raw != []
    ensures r <= raw
  {
    TrimBlanks(TrimCr(raw[..|raw| - 1]))
  }

  /** Whether the tokenizer is in its domain on a line of which `spare` characters were
      cut off, each leaving a NUL: a quoted string closed late needs one at the level
      that the gaps before it lead to. */
  predicate Readable(line: string, spare: nat) {
    NulFree(line) && Lex(line).Some? && (LateGap(line).Some? ==> LateGap(line).value < spare)
  }

  /** Drops each CR that stands before an LF. */
  function Decrlf(s: string): (r: string)
    ensures |r| <= |s|
    ensures NUL !in s ==> NUL !in r
    ensures s != [] && s[|s| - 1] != '\r' ==> r != [] && r[|r| - 1] == s[|s| - 1]
  {
    if s == [] then []
    else if s[0] == '\r' && |s| > 1 && s[1] == '\n' then Decrlf(s[1..])
    else [s[0]] + Decrlf(s[1..])
  }

  /** The size a literal marker announces: `{n}`, or `{n+}` with no go-ahead. */
  function Marker(arg: string): Option<nat> {
    if |arg| > 1 && arg[0] == '{' && arg[|arg| - 1] == '}' then
      var (n, end) := Strtoul(arg[1..]);
      if 1 + end < |arg| && (arg[1 + end] == '}' || arg[1 + end] == '+') then Some(n) else None
    else None
  }

  predicate Wrapped(lit: string) {
    lit != [] && lit[0] == '"' && lit[|lit| - 1] == '"'
  }

  /** The argument a literal becomes.  One that starts and ends with a double quote
      is unescaped and loses both; None when that is not possible in place. */
  function LiteralArg(lit: string): (r: Option<string>)
    ensures r.Some? ==> NulFree(r.value)
  {
    if !NulFree(lit) then None
    else if !Wrapped(lit) then Some(Decrlf(lit))
    else if |lit| == 1 then None
    else
      match Unescape(lit[1..])
      case None => None
      case Some(u) =>
        var d := Decrlf(u);
        if NulFree(u) && d != [] then Some(d[..|d| - 1]) else None
  }

  datatype Outcome =
    | Command(args: seq<string>, rest: string)
    | Bye
    | OutsideDomain

  function Shorter(m: nat, n: nat): nat {
    if m < n then m else n
  }

  /** Continues a command that has collected `args` so far. */
  function ReadCommand(args: seq<string>, input: string): Outcome
    decreases |input|
  {
    match TakeLine(input)
    case None => Bye
    case Some((raw, rest)) =>
      var line := Trim(raw);
      if !Readable(line, |raw| - |line|) then OutsideDomain
      else
        var all := args + Lex(line).value;
        if all == [] || Marker(all[|all| - 1]).None? then Command(all, rest)
        else
          var n := Marker(all[|all| - 1]).value;
          if n == 0 then OutsideDomain
          else if rest == [] then Bye
          else
            var k := Shorter(n, |rest|);
            match LiteralArg(rest[..k])
            case None => OutsideDomain
            case Some(v) => ReadCommand(all[..|all| - 1] + [v], rest[k..])
  }

  /** Whether a marker asks the server to invite the literal: `{n}`, and not `{n+}`. */
  predicate Synchronising(arg: string) {
    Marker(arg).Some? && 1 + Strtoul(arg[1..]).1 < |arg| && arg[1 + Strtoul(arg[1..]).1] == '}'
  }

  /** How many literals the server invites while it reads the command. */
  function GoAheads(args: seq<string>, input: string): nat
    decreases |input|
  {
    match TakeLine(input)
    case None => 0
    case Some((raw, rest)) =>
      var line := Trim(raw);
      if !Readable(line, |raw| - |line|) then 0
      else
        var all := args + Lex(line).value;
        if all == [] || Marker(all[|all| - 1]).None? then 0
        else
          var n := Marker(all[|all| - 1]).value;
          var k := Shorter(n, |rest|);
          (if Synchronising(all[|all| - 1]) then 1 else 0)
          + if n == 0 || rest == [] || LiteralArg(rest[..k]).None? then 0
            else GoAheads(all[..|all| - 1] + [LiteralArg(rest[..k]).value], rest[k..])
  }

  // ---------- a well-formed command comes out as sent ----------

  /** A line segment that ends in a marker, and the literal that follows it. */
  datatype Segment = Segment(line: string, lit: string)

  /** A line as it is sent before CR and LF, which leave two NULs behind. */
  predicate PlainLine(line: string) {
    && '\n' !in line
    && (line != [] ==> !IsBlank(line[|line| - 1]))
    && Readable(line, 2)
  }

  predicate GoodSegment(s: Segment) {
    && PlainLine(s.line) && s.lit != [] && NulFree(s.lit) && !Wrapped(s.lit)
    && var ts := Lex(s.line).value;
       ts != [] && Marker(ts[|ts| - 1]) == Some(|s.lit|)
  }

  /** The bytes of a command: segments and literals, and the last line. */
  function Wire(segs: seq<Segment>, last: string): string {
    if segs == [] then last + "\r\n"
    else segs[0].line + "\r\n" + segs[0].lit + Wire(segs[1..], last)
  }

  function SegmentTokens(s: Segment): seq<string>
    requires GoodSegment(s)
  {
    var ts := Lex(s.line).value;
    ts[..|ts| - 1] + [Decrlf(s.lit)]
  }

  /** The tokens of all segments in order, each marker replaced by its literal. */
  function Expected(segs: seq<Segment>, last: string): seq<string>
    requires PlainLine(last)
    requires forall i :: 0 <= i < |segs| ==> GoodSegment(segs[i])
  {
    if segs == [] then Lex(last).value
    else SegmentTokens(segs[0]) + Expected(segs[1..], last)
  }

  lemma {:induction false} TakeLineOf(line: string, rest: string)
    requires '\n' !in line
    ensures TakeLine(line + "\n" + rest) == Some((line + "\n", rest))
  {
    var s := line + "\n" + rest;
    if line == [] {
      assert s[..1] == "\n" && s[1..] == rest;
    } else {
      assert s[1..] == line[1..] + "\n" + rest;
      TakeLineOf(line[1..], rest);
      assert [line[0]] + (line[1..] + "\n") == line + "\n";
    }
  }

  lemma TakeCrlfLine(line: string, rest: string)
    requires '\n' !in line
    ensures TakeLine(line + "\r\n" + rest) == Some((line + "\r\n", rest))
  {
    TakeLineOf(line + "\r", rest);
    assert line + "\r" + "\n" == line + "\r\n";
  }

  lemma TrimOf(line: string)
    requires line != [] ==> !IsBlank(line[|line| - 1])
    ensures Trim(line + "\r\n") == line
  {
    var raw := line + "\r\n";
    assert raw[..|raw| - 1] == line + "\r";
    assert (line + "\r")[..|line|] == line;
  }

  lemma ReadSegment(args: seq<string>, s: Segment, tail: string)
    requires GoodSegment(s)
    ensures ReadCommand(args, s.line + "\r\n" + (s.lit + tail)) == ReadCommand(args + SegmentTokens(s), tail)
  {
    hide Lex, LateGap, TakeLine, Trim, Marker, Decrlf, NulFree, Unescape;
    TakeCrlfLine(s.line, s.lit + tail);
    TrimOf(s.line);
    var all := args + Lex(s.line).value;
    var rest := s.lit + tail;
    assert rest[..|s.lit|] == s.lit && rest[|s.lit|..] == tail;
    assert all[..|all| - 1] + [Decrlf(s.lit)] == args + SegmentTokens(s);
  }

  /** The marker at the end of a segment. */
  function MarkerOf(s: Segment): string
    requires GoodSegment(s)
  {
    var ts := Lex(s.line).value;
    ts[|ts| - 1]
  }

  lemma InviteSegment(args: seq<string>, s: Segment, tail: string)
    requires GoodSegment(s)
    ensures GoAheads(args, s.line + "\r\n" + (s.lit + tail))
         == (if Synchronising(MarkerOf(s)) then 1 else 0) + GoAheads(args + SegmentTokens(s), tail)
  {
    hide Lex, LateGap, TakeLine, Trim, Marker, Synchronising, Decrlf, NulFree, Unescape;
    TakeCrlfLine(s.line, s.lit + tail);
    TrimOf(s.line);
    var all := args + Lex(s.line).value;
    var rest := s.lit + tail;
    assert rest[..|s.lit|] == s.lit && rest[|s.lit|..] == tail;
    assert all[..|all| - 1] + [Decrlf(s.lit)] == args + SegmentTokens(s);
  }

  lemma InviteLast(args: seq<string>, last: string, rest: string)
    requires PlainLine(last)
    requires var all := args + Lex(last).value; all == [] || Marker(all[|all| - 1]).None?
    ensures GoAheads(args, last + "\r\n" + rest) == 0
  {
    hide Lex, LateGap, TakeLine, Trim, Marker;
    TakeCrlfLine(last, rest);
    TrimOf(last);
  }

  /** The literals of the segments whose markers ask for it. */
  function Invited(segs: seq<Segment>): nat
    requires forall i :: 0 <= i < |segs| ==> GoodSegment(segs[i])
  {
    if segs == [] then 0 else (if Synchronising(MarkerOf(segs[0])) then 1 else 0) + Invited(segs[1..])
  }

  /** While it reads a command, the server invites each literal that waits for it. */
  lemma {:induction false} InviteWire(args: seq<string>, segs: seq<Segment>, last: string, rest: string)
    requires PlainLine(last)
    requires forall i :: 0 <= i < |segs| ==> GoodSegment(segs[i])
    requires var all := args + Expected(segs, last); all == [] || Marker(all[|all| - 1]).None?
    ensures GoAheads(args, Wire(segs, last) + rest) == Invited(segs)
    decreases |segs|
  {
    if segs == [] {
      InviteLast(args, last, rest);
    } else {
      hide *;
      var more := segs[1..];
      CommandStep(args, segs, last, rest);
      InviteSegment(args, segs[0], Wire(more, last) + rest);
      InviteWire(args + SegmentTokens(segs[0]), more, last, rest);
      InvitedStep(segs);
    }
  }

  lemma InvitedStep(segs: seq<Segment>)
    requires segs != [] && forall i :: 0 <= i < |segs| ==> GoodSegment(segs[i])
    ensures GoodSegment(segs[0])
    ensures Invited(segs) == (if Synchronising(MarkerOf(segs[0])) then 1 else 0) + Invited(segs[1..])
  {
    hide Lex, Marker, Synchronising, PlainLine, MarkerOf;
  }

  lemma ReadLast(args: seq<string>, last: string, rest: string)
    requires PlainLine(last)
    requires var all := args + Lex(last).value; all == [] || Marker(all[|all| - 1]).None?
    ensures ReadCommand(args, last + "\r\n" + rest) == Command(args + Lex(last).value, rest)
  {
    hide Lex, LateGap, TakeLine, Trim, Marker;
    TakeCrlfLine(last, rest);
    TrimOf(last);
  }

  /** Section 4.3 of RFC 3501: any number of segments joined by literals reads as
      the tokens of all of them, and the stream is left just behind the command. */
  lemma {:induction false} ReadWire(args: seq<string>, segs: seq<Segment>, last: string, rest: string)
    requires PlainLine(last)
    requires forall i :: 0 <= i < |segs| ==> GoodSegment(segs[i])
    requires var all := args + Expected(segs, last); all == [] || Marker(all[|all| - 1]).None?
    ensures ReadCommand(args, Wire(segs, last) + rest) == Command(args + Expected(segs, last), rest)
    decreases |segs|
  {
    if segs == [] {
      ReadLast(args, last, rest);
    } else {
      hide *;
      var more := segs[1..];
      CommandStep(args, segs, last, rest);
      ReadSegment(args, segs[0], Wire(more, last) + rest);
      ReadWire(args + SegmentTokens(segs[0]), more, last, rest);
    }
  }

  lemma CommandStep(args: seq<string>, segs: seq<Segment>, last: string, rest: string)
    requires PlainLine(last) && segs != []
    requires forall i :: 0 <= i < |segs| ==> GoodSegment(segs[i])
    ensures Wire(segs, last) + rest == segs[0].line + "\r\n" + (segs[0].lit + (Wire(segs[1..], last) + rest))
    ensures args + Expected(segs, last) == args + SegmentTokens(segs[0]) + Expected(segs[1..], last)
  {
    hide Lex, Marker, GoodSegment, PlainLine;
  }

  lemma {:induction false} DecrlfUnescape(s: string)
    requires Unescape(s).Some?
    ensures |Decrlf(Unescape(s).value)| <= |Decrlf(s)|
  {
    if s != [] {
      if |s| == 1 {
      } else if s[0] == '\\' {
        DecrlfUnescape(s[2..]);
        assert s[1..][1..] == s[2..];
      } else {
        DecrlfUnescape(s[1..]);
        assert Unescape(s).value[1..] == Unescape(s[1..]).value;
      }
    }
  }

  /** A literal reaches the command as its octets, CRs before LFs dropped, exactly
      when it is not wrapped in double quotes. */
  lemma LiteralKept(lit: string)
    requires NulFree(lit)
    ensures LiteralArg(lit) == Some(Decrlf(lit)) <==> !Wrapped(lit)
  {
    if Wrapped(lit) && |lit| > 1 && Unescape(lit[1..]).Some? {
      DecrlfUnescape(lit[1..]);
      assert Decrlf(lit) == ['"'] + Decrlf(lit[1..]);
    }
  }
}
