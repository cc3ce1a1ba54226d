/** FETCH of message text: the CRLF form sent to the client, substrings of it, and the
    literal lengths announced before the bytes. */
module FetchIo {
  import opened Common

  const CR: char := '\r'
  const LF: char := '\n'

  /** A size_t is 64 bits wide. */
  const SIZE_LIMIT: nat := 0x1_0000_0000_0000_0000

  // ---------- the CRLF form ----------

  /** Every newline becomes CR LF, whatever stands before it. */
  function Crlf(s: string): string {
    if s == [] then []
    else if s[0] == LF then [CR, LF] + Crlf(s[1..])
    else [s[0]] + Crlf(s[1..])
  }

  /** The number of newlines. */
  function Lines(s: string): nat {
    if s == [] then 0 else (if s[0] == LF then 1 else 0) + Lines(s[1..])
  }

  lemma CrlfCons(c: char, s: string)
    ensures Crlf([c] + s) == (if c == LF then [CR, LF] else [c]) + Crlf(s)
    ensures Lines([c] + s) == (if c == LF then 1 else 0) + Lines(s)
  {
    assert ([c] + s)[1..] == s;
  }

  lemma {:induction false} CrlfAppend(s: string, t: string)
    ensures Crlf(s + t) == Crlf(s) + Crlf(t) && Lines(s + t) == Lines(s) + Lines(t)
  {
    if s == [] {
      assert s + t == t;
    } else {
      hide Crlf, Lines;
      var c, u := s[0], s[1..];
      CrlfAppend(u, t);
      CrlfCons(c, u);
      CrlfCons(c, u + t);
      AppendAssoc([c], u, t);
      AppendAssoc(if c == LF then [CR, LF] else [c], Crlf(u), Crlf(t));
      assert s == [c] + u;
    }
  }

  /** Size plus line count is the length that goes over the wire. */
  lemma {:induction false} CrlfLength(s: string)
    ensures |Crlf(s)| == |s| + Lines(s)
  {
    if s != [] {
      CrlfLength(s[1..]);
    }
  }

  lemma CrlfChar(s: string, c: char)
    ensures Crlf(s + [c]) == Crlf(s) + (if c == LF then [CR, LF] else [c])
  {
    var none: string := [];
    CrlfAppend(s, [c]);
    assert [c][1..] == none && Crlf(none) == [];
    assert [c] + none == [c] && [CR, LF] + none == [CR, LF];
  }

  /** count_nl: strchr from one newline to the next */
  method CountNl(str: string) returns (n: nat)
    ensures n == Lines(str)
  {
    n := 0;
    var at := 0;
    while true
      invariant at <= |str| && Lines(str) == n + Lines(str[at..])
      decreases |str| - at
    {
      var next := at;
      while next < |str| && str[next] != LF
        invariant at <= next <= |str| && Lines(str[next..]) == Lines(str[at..])
      {
        assert str[next..][1..] == str[next + 1..];
        next := next + 1;
      }
      if next == |str| {
        return;
      }
      assert str[next..][1..] == str[next + 1..];
      n := n + 1;
      at := next + 1;
    }
  }

  datatype FilterResult = FilterOk | MoreOutput

  /** _crlf_encoder without "-n": takes what it can of the input and fills what it can
      of the output. */
  method CrlfEncoder(input: string, output: array<char>)
    returns (res: FilterResult, isize: nat, osize: nat)
    modifies output
    ensures isize <= |input| && (res.FilterOk? ==> osize <= output.Length)
    ensures res.FilterOk? ==> output[..osize] == Crlf(input[..isize])
    ensures res.FilterOk? && input != [] && output.Length > 0 ==> isize > 0
    ensures res.MoreOutput? ==> output.Length == 1 && osize == 2
  {
    var i, j := 0, 0;
    while i < |input| && j < output.Length
      invariant i <= |input| && j <= output.Length && output[..j] == Crlf(input[..i])
      invariant i == 0 ==> j == 0
    {
      var c := input[i];
      assert input[..i + 1] == input[..i] + [c];
      CrlfChar(input[..i], c);
      if c == LF {
        if j + 1 == output.Length {
          if i == 0 {
            return MoreOutput, i, 2;
          }
          break;
        }
        output[j] := CR;
        output[j + 1] := LF;
        j := j + 2;
      } else {
        output[j] := c;
        j := j + 1;
      }
      i := i + 1;
    }
    return FilterOk, i, j;
  }

  // ---------- the response ----------

  /** The part of `enc` that `<start.size>` names. */
  function Part(enc: string, start: nat, size: nat): string
    requires start <= |enc|
  {
    enc[start..if size < |enc| - start then start + size else |enc|]
  }

  /** A literal with its length, or an empty string for no bytes. */
  function Literal(bytes: string): string {
    if bytes == [] then " \"\"" else " {" + Dec(|bytes|) + "}\r\n" + bytes
  }

  /** What follows the section name in the response to a fetch of `text`. */
  function Response(text: string, start: nat, size: nat): string {
    var enc := Crlf(text);
    if start == 0 && size == WHOLE then Literal(enc)
    else if start > |enc| then "<" + Dec(start) + ">" + Literal([])
    else "<" + Dec(start) + ">" + Literal(Part(enc, start, size))
  }

  // ---------- what the client reads ----------

  /** The client's reading of a literal or an empty string: its bytes, and what is left
      (section 4.3 of RFC 3501). */
  function ReadString(s: string): Option<(string, string)> {
    if " \"\"" <= s then Some(([], s[3..]))
    else if !(" {" <= s) then None
    else
      var (n, digits) := Strtoul(s[2..]);
      ReadBytes(s[2 + digits..], n)
  }

  /** The end of a length line and `n` bytes. */
  function ReadBytes(s: string, n: nat): Option<(string, string)> {
    if "}\r\n" <= s && 3 + n <= |s| then Some((s[3..3 + n], s[3 + n..])) else None
  }

  /** The client's reading of a partial fetch: where it starts, its bytes, and what is left. */
  function ReadPart(s: string): (r: Option<(nat, string, string)>)
    ensures r.Some? ==> |r.value.2| < |s|
  {
    if !("<" <= s) then None
    else
      var (start, digits) := Strtoul(s[1..]);
      var after := s[1 + digits..];
      if !(">" <= after) then None
      else
        match ReadString(after[1..])
        case None => None
        case Some((bytes, rest)) => Some((start, bytes, rest))
  }

  lemma BytesRead(bytes: string, rest: string)
    ensures ReadBytes("}\r\n" + (bytes + rest), |bytes|) == Some((bytes, rest))
  {
    var s := "}\r\n" + (bytes + rest);
    assert s[3..] == bytes + rest;
    assert s[3..3 + |bytes|] == bytes && s[3 + |bytes|..] == rest;
  }

  lemma NumberRead(n: nat, tail: string)
    requires n <= ULONG_MAX && tail != [] && tail[0] == '}'
    ensures ReadString(" {" + (Dec(n) + tail)) == ReadBytes(tail, n)
  {
    hide Strtoul, Dec, ReadBytes;
    var d, s := Dec(n), " {" + (Dec(n) + tail);
    StrtoulDec(n, tail);
    assert s[2..] == d + tail && s[2 + |d|..] == tail;
    assert s[1] == '{' && " {" <= s;
  }

  /** The announced length is that of the bytes behind it: the client reads exactly what
      the server meant, whatever the bytes are and whatever follows. */
  lemma StringRead(bytes: string, rest: string)
    requires |bytes| <= ULONG_MAX
    ensures ReadString(Literal(bytes) + rest) == Some((bytes, rest))
  {
    if bytes == [] {
      assert (" \"\"" + rest)[3..] == rest;
    } else {
      hide ReadString, ReadBytes, Dec;
      BytesRead(bytes, rest);
      NumberRead(|bytes|, "}\r\n" + (bytes + rest));
      FourPieces(" {", Dec(|bytes|), "}\r\n", bytes, rest);
    }
  }

  lemma FourPieces(a: string, b: string, c: string, d: string, e: string)
    ensures a + b + c + d + e == a + (b + (c + (d + e)))
  {
  }

  /** The bytes that a partial fetch is to give. */
  function Wanted(text: string, start: nat, size: nat): string {
    if start > |Crlf(text)| then [] else Part(Crlf(text), start, size)
  }

  /** The client reads the offset it asked for and the part it asked for. */
  lemma ResponseRead(text: string, start: nat, size: nat, rest: string)
    requires Fits(text) && start <= WHOLE && !(start == 0 && size == WHOLE)
    ensures ReadPart(Response(text, start, size) + rest) == Some((start, Wanted(text, start, size), rest))
  {
    hide ReadPart, ReadString, Literal, Crlf;
    var bytes := Wanted(text, start, size);
    StringRead(bytes, rest);
    PartHead(start, Literal(bytes) + rest);
    assert Response(text, start, size) == "<" + Dec(start) + ">" + Literal(bytes);
    AppendAssoc("<" + Dec(start) + ">", Literal(bytes), rest);
  }

  lemma PartHead(start: nat, body: string)
    requires start <= ULONG_MAX
    ensures var s := "<" + Dec(start) + ">" + body;
            ReadPart(s) == (match ReadString(body)
                            case None => None
                            case Some((bytes, rest)) => Some((start, bytes, rest)))
  {
    hide Strtoul, Dec, ReadString;
    var d, s := Dec(start), "<" + Dec(start) + ">" + body;
    StrtoulDec(start, ">" + body);
    assert s[1..] == d + (">" + body);
    assert s[1 + |d|..] == ">" + body && (">" + body)[1..] == body;
    assert "<" <= s && ">" <= ">" + body;
  }

  /** The responses to fetches of `step` bytes each, one behind the other. */
  function Answers(text: string, at: nat, step: nat): string
    requires step > 0
    decreases |Crlf(text)| - at
  {
    if at >= |Crlf(text)| then [] else Response(text, at, step) + Answers(text, at + step, step)
  }

  /** A client that joins the parts it reads, each of which has to start where the one
      before ended. */
  function Joined(s: string, have: nat): Option<string>
    decreases |s|
  {
    if s == [] then Some([])
    else
      match ReadPart(s)
      case None => None
      case Some((start, bytes, rest)) =>
        if start != have then None
        else
          match Joined(rest, have + |bytes|)
          case None => None
          case Some(more) => Some(bytes + more)
  }

  /** A client that fetches a text in steps of any length and reads the responses ends
      with the whole text in CRLF form. */
  lemma {:induction false} StepsJoin(text: string, at: nat, step: nat)
    requires Fits(text) && at <= |Crlf(text)| && 0 < step < WHOLE
    ensures Joined(Answers(text, at, step), at) == Some(Crlf(text)[at..])
    decreases |Crlf(text)| - at
  {
    hide ReadPart, Response, Crlf;
    var enc := Crlf(text);
    if at == |enc| {
      assert enc[at..] == [];
    } else {
      var rest := Answers(text, at + step, step);
      var s := Response(text, at, step) + rest;
      ResponseRead(text, at, step, rest);
      var part := Wanted(text, at, step);
      assert s == Answers(text, at, step) && s != [];
      if at + step < |enc| {
        StepsJoin(text, at + step, step);
        assert enc[at..] == part + enc[at + step..];
      } else {
        assert part == enc[at..] && rest == [];
        assert Joined(rest, at + |part|) == Some([]) && part + [] == part;
      }
    }
  }

  // ---------- streams ----------

  /** The connection to the client, with its CRLF filter. */
  class Connection {
    var sent: string
    var crlf: bool

    constructor ()
      ensures sent == [] && crlf
    {
      sent, crlf := [], true;
    }

    method Write(bytes: string)
      modifies this`sent
      ensures sent == old(sent) + if crlf then Crlf(bytes) else bytes
    {
      sent := sent + if crlf then Crlf(bytes) else bytes;
    }
  }

  /** A stream over `text`.  Seeks and reads may fail, as the bits of `failures` have
      it, and a read may be short. */
  class Source {
    const text: string
    var pos: nat
    var failures: nat

    constructor (text: string, failures: nat)
      ensures this.text == text && pos == 0 && this.failures == failures
    {
      this.text, pos, this.failures := text, 0, failures;
    }

    method Seek(to: nat) returns (ok: bool)
      modifies this
      ensures ok ==> pos == to
      ensures old(failures) == 0 ==> ok && failures == 0
    {
      ok := failures % 2 == 0;
      failures := failures / 2;
      if ok {
        pos := to;
      }
    }

    method Read(size: nat) returns (ok: bool, chunk: string)
      modifies this
      ensures ok ==> |chunk| <= size && pos == old(pos) + |chunk|
      ensures ok && chunk != [] ==> pos <= |text| && chunk == text[old(pos)..pos]
      ensures ok && chunk == [] ==> old(pos) >= |text| || size == 0
      ensures !ok ==> chunk == [] && pos == old(pos)
      ensures old(failures) == 0 ==> ok && failures == 0
    {
      ok := failures % 2 == 0;
      failures := failures / 2;
      chunk := [];
      if ok && pos < |text| && size > 0 {
        var n: nat :| 1 <= n <= size && pos + n <= |text|;
        chunk := text[pos..pos + n];
        pos := pos + n;
      }
    }
  }

  /** mu_stream_copy of at most `size` bytes, its result ignored */
  method CopyOut(stream: Source, size: nat, out: Connection) returns (ghost copied: nat)
    requires stream.pos == 0 && size >= |stream.text| && out.crlf
    modifies stream, out`sent
    ensures copied <= |stream.text|
    ensures out.sent == old(out.sent) + Crlf(stream.text[..copied])
    ensures old(stream.failures) == 0 ==> copied == |stream.text|
  {
    hide Crlf;
    copied := 0;
    ghost var before := out.sent;
    NothingSent();
    var left := size;
    while left > 0
      invariant copied <= |stream.text| && stream.pos == copied && size - copied == left
      invariant out.sent == before + Crlf(stream.text[..copied])
      invariant old(stream.failures) == 0 ==> stream.failures == 0
    {
      var ok, chunk := stream.Read(left);
      if !ok || chunk == [] {
        return;
      }
      assert stream.text[..stream.pos] == stream.text[..copied] + chunk;
      CrlfAppend(stream.text[..copied], chunk);
      AppendAssoc(before, Crlf(stream.text[..copied]), Crlf(chunk));
      out.Write(chunk);
      copied := stream.pos;
      left := left - |chunk|;
    }
  }

  lemma NothingSent()
    ensures Crlf([]) == []
  {
  }

  /** A text that fits in memory has a CRLF form whose length a size_t can hold. */
  predicate Fits(text: string) {
    |Crlf(text)| < WHOLE
  }

  method SendLiteral(buffer: array<char>, total: nat, out: Connection)
    requires total <= buffer.Length && out.crlf
    modifies out
    ensures out.crlf && out.sent == old(out.sent) + Literal(buffer[..total])
  {
    ghost var before := out.sent;
    if total > 0 {
      Announce(total, out);
      out.crlf := false;
      out.Write(buffer[..total]);
      out.crlf := true;
      assert out.sent == before + (" {" + Dec(total) + "}\r\n" + buffer[..total]);
    } else {
      PlainEmpty();
      out.Write(" \"\"");
    }
  }

  lemma {:induction false} NoNewline(s: string)
    requires LF !in s
    ensures Crlf(s) == s
  {
    if s != [] {
      assert s[0] != LF && forall c :: c in s[1..] ==> c in s;
      NoNewline(s[1..]);
      assert [s[0]] + s[1..] == s && Crlf(s) == [s[0]] + Crlf(s[1..]);
    }
  }

  lemma Plain(n: nat)
    ensures Crlf(" {" + Dec(n) + "}") == " {" + Dec(n) + "}"
    ensures Crlf("<" + Dec(n) + ">") == "<" + Dec(n) + ">"
  {
    NoNewline(" {" + Dec(n) + "}");
    NoNewline("<" + Dec(n) + ">");
  }

  lemma PlainEmpty()
    ensures Crlf(" \"\"") == " \"\""
  {
    NoNewline(" \"\"");
  }

  /** The read loop: fills the buffer from the stream, in reads of any length. */
  method Fill(rfc: Source, buffer: array<char>, size: nat) returns (ok: bool, total: nat)
    requires size < buffer.Length && rfc.pos <= |rfc.text|
    modifies rfc, buffer
    ensures total <= size
    ensures ok ==> buffer[..total] == Part(rfc.text, old(rfc.pos), size)
    ensures old(rfc.failures) == 0 ==> ok
  {
    total := 0;
    ok := true;
    ghost var start := rfc.pos;
    while total < size
      invariant ok && total <= size && rfc.pos == start + total <= |rfc.text|
      invariant buffer[..total] == rfc.text[start..start + total]
      invariant old(rfc.failures) == 0 ==> rfc.failures == 0
    {
      var chunk;
      ok, chunk := rfc.Read(size - total);
      if !ok || chunk == [] {
        return;
      }
      forall k | 0 <= k < |chunk| {
        buffer[total + k] := chunk[k];
      }
      assert buffer[..total + |chunk|] == buffer[..total] + chunk;
      total := total + |chunk|;
      assert rfc.text[start..start + total] == rfc.text[start..start + total - |chunk|] + chunk;
    }
  }

  /** fetch_io.  `max` is the size plus the lines of the text, which the callers add
      up; a false result stands for RESP_BAD. */
  method FetchIo(stream: Source, start: nat, size: nat, max: nat, out: Connection) returns (ok: bool)
    requires Fits(stream.text) && max == |stream.text| + Lines(stream.text)
    requires start <= WHOLE && size <= WHOLE && out.crlf
    modifies stream, out
    ensures out.crlf
    ensures !ok ==> out.sent == old(out.sent)
    ensures ok && !(start == 0 && size == WHOLE) ==> out.sent == old(out.sent) + Response(stream.text, start, size)
    ensures ok && start == 0 && size == WHOLE ==> exists k :: SentWhole(stream.text, k, old(out.sent), out.sent)
    ensures old(stream.failures) == 0 && max + 2 < SIZE_LIMIT ==>
              ok && out.sent == old(out.sent) + Response(stream.text, start, size)
  {
    hide Part, Literal, Crlf, Lines;
    CrlfLength(stream.text);
    ghost var before := out.sent;
    if start == 0 && size == WHOLE {
      ok := FetchWhole(stream, max, out);
      AllSent(stream.text, before, out.sent);
    } else if start > max {
      Plain(start);
      PlainEmpty();
      EmptyLiteral();
      out.Write("<" + Dec(start) + ">");
      out.Write(" \"\"");
      ok := true;
      assert Response(stream.text, start, size) == "<" + Dec(start) + ">" + " \"\"";
      assert out.sent == before + ("<" + Dec(start) + ">" + " \"\"");
    } else {
      ok := FetchPart(stream.text, stream.failures, start, size, max, out);
    }
  }

  lemma EmptyLiteral()
    ensures Literal([]) == " \"\""
  {
  }

  /** The whole text, cut off after `k` characters of it. */
  ghost predicate SentWhole(text: string, k: nat, before: string, after: string) {
    && k <= |text|
    && after == before + if Crlf(text) == [] then Literal([])
                         else " {" + Dec(|Crlf(text)|) + "}\r\n" + Crlf(text[..k])
  }

  lemma AllSent(text: string, before: string, after: string)
    ensures SentWhole(text, |text|, before, after) ==> after == before + Response(text, 0, WHOLE)
  {
    hide Crlf;
    assert text[..|text|] == text;
    EmptyLiteral();
  }

  method FetchWhole(stream: Source, max: nat, out: Connection) returns (ok: bool)
    requires max == |Crlf(stream.text)| && out.crlf
    modifies stream, out`sent
    ensures !ok ==> out.sent == old(out.sent)
    ensures ok ==> exists k :: SentWhole(stream.text, k, old(out.sent), out.sent)
    ensures old(stream.failures) == 0 ==>
              ok && SentWhole(stream.text, |stream.text|, old(out.sent), out.sent)
  {
    hide Crlf, Lines, SentWhole;
    CrlfLength(stream.text);
    ghost var before := out.sent;
    ok := stream.Seek(0);
    if !ok {
      return;
    }
    if max > 0 {
      Announce(max, out);
      ghost var copied := CopyOut(stream, max, out);
      WholeSent(stream.text, copied, before, out.sent);
    } else {
      PlainEmpty();
      out.Write(" \"\"");
      EmptySent(stream.text, before, out.sent);
    }
  }

  /** The length line of a literal, through the CRLF filter. */
  method Announce(n: nat, out: Connection)
    requires out.crlf
    modifies out`sent
    ensures out.sent == old(out.sent) + " {" + Dec(n) + "}\r\n"
  {
    ghost var announced := " {" + Dec(n) + "}";
    ghost var before := out.sent;
    Plain(n);
    CrlfChar(announced, LF);
    out.Write(" {" + Dec(n) + "}\n");
    assert announced + [LF] == " {" + Dec(n) + "}\n";
    assert [CR, LF] == "\r\n";
    assert out.sent == before + (announced + "\r\n");
  }

  lemma WholeSent(text: string, k: nat, before: string, after: string)
    requires Crlf(text) != [] && k <= |text|
    requires after == before + " {" + Dec(|Crlf(text)|) + "}\r\n" + Crlf(text[..k])
    ensures SentWhole(text, k, before, after)
  {
    hide Crlf, Dec;
    assert after == before + (" {" + Dec(|Crlf(text)|) + "}\r\n" + Crlf(text[..k]));
  }

  lemma EmptySent(text: string, before: string, after: string)
    requires Crlf(text) == [] && after == before + " \"\""
    ensures SentWhole(text, |text|, before, after)
  {
    hide Crlf;
    EmptyLiteral();
  }

  method FetchPart(text: string, failures: nat, start: nat, size0: nat, max: nat, out: Connection)
    returns (ok: bool)
    requires Fits(text) && start <= max == |Crlf(text)| && size0 <= WHOLE && out.crlf
    modifies out
    ensures out.crlf
    ensures !ok ==> out.sent == old(out.sent)
    ensures ok ==> out.sent == old(out.sent) + ("<" + Dec(start) + ">" + Literal(Part(Crlf(text), start, size0)))
    ensures failures == 0 && max + 2 < SIZE_LIMIT ==> ok
  {
    hide Crlf, Lines, Literal;
    var size := size0;
    if size > max {
      size := max;
    }
    if (size + 2) % SIZE_LIMIT < size {
      return false;
    }
    var rfc := new Source(Crlf(text), failures);
    var buffer := new char[size + 1];
    ok := rfc.Seek(start);
    if !ok {
      return;
    }
    var total;
    ok, total := Fill(rfc, buffer, size);
    if !ok {
      return;
    }
    buffer[total] := NUL;
    ghost var part := buffer[..total];
    assert part == Part(Crlf(text), start, size0);
    Plain(start);
    ghost var before := out.sent;
    out.Write("<" + Dec(start) + ">");
    SendLiteral(buffer, total, out);
    assert out.sent == before + ("<" + Dec(start) + ">" + Literal(part));
  }
}
