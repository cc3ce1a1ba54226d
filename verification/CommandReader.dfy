/** The loop of `imap4d_readline` over the token buffer and the client's stream. */
module CommandReader {
  import opened Common
  import opened Lexer
  import opened ReadLine
  import opened TokBuf
  import Unquote

  /** The client's stream.  A read may return any non-empty part of what was asked. */
  class Input {
    var data: string
    /** The lines `+ GO AHEAD` that were sent. */
    var invitations: nat

    constructor (bytes: string)
      ensures data == bytes && invitations == 0
    {
      data, invitations := bytes, 0;
    }

    /** mu_stream_timed_readline: at most `size` bytes, none behind a newline */
    method Readline(size: nat) returns (chunk: string)
      requires size > 0
      modifies this`data
      ensures old(data) == chunk + data && |chunk| <= size
      ensures chunk == [] <==> old(data) == []
      ensures chunk != [] ==> '\n' !in chunk[..|chunk| - 1]
    {
      if data == [] {
        return [];
      }
      var n: nat :| 1 <= n <= size && n <= |data| && '\n' !in data[..n - 1] by {
        assert '\n' !in data[..1 - 1];
      }
      chunk := data[..n];
      assert chunk[..n - 1] == data[..n - 1];
      data := data[n..];
    }

    /** mu_stream_read */
    method Read(size: nat) returns (chunk: string)
      modifies this`data
      ensures old(data) == chunk + data && |chunk| <= size
      ensures chunk == [] <==> old(data) == [] || size == 0
    {
      if data == [] || size == 0 {
        return [];
      }
      var n: nat :| 1 <= n <= size && n <= |data|;
      chunk := data[..n];
      data := data[n..];
    }
  }

  const CHUNK: nat := 512

  /** Between segments: all arguments lie below the level, behind a NUL. */
  ghost predicate Ready(tok: TokBuf)
    reads tok, tok.buffer
  {
    && tok.Valid() && Below(tok.argp, tok.args, tok.level)
    && (tok.level == 0 || tok.buffer[tok.level - 1] == NUL)
  }

  /** Appends bytes at the level. */
  method Append(tok: TokBuf, chunk: string)
    requires tok.level <= tok.buffer.Length
    modifies tok`buffer, tok`level, tok.buffer
    ensures tok.buffer == old(tok.buffer) || fresh(tok.buffer)
    ensures tok.level == old(tok.level) + |chunk| <= tok.buffer.Length
    ensures tok.buffer[..tok.level] == old(tok.buffer[..tok.level]) + chunk
  {
    tok.Expand(|chunk|);
    CopyIn(tok.buffer, tok.level, chunk);
    tok.level := tok.level + |chunk|;
  }

  lemma TakeLineSplit(raw: string, rest: string)
    requires raw != [] && raw[|raw| - 1] == '\n' && '\n' !in raw[..|raw| - 1]
    ensures TakeLine(raw + rest) == Some((raw, rest))
  {
    var line := raw[..|raw| - 1];
    assert raw == line + "\n";
    TakeLineOf(line, rest);
  }

  /** The read loop of imap4d_tokbuf_getline, up to and including a newline. */
  method ReadRaw(tok: TokBuf, io: Input) returns (bye: bool)
    requires tok.level <= tok.buffer.Length
    modifies io`data, tok`buffer, tok`level, tok.buffer
    ensures tok.buffer == old(tok.buffer) || fresh(tok.buffer)
    ensures bye <==> TakeLine(old(io.data)).None?
    ensures !bye ==> var p := TakeLine(old(io.data)).value;
                     io.data == p.1 && tok.level <= tok.buffer.Length &&
                     tok.buffer[..tok.level] == old(tok.buffer[..tok.level]) + p.0
  {
    ghost var input, before, raw := io.data, tok.buffer[..tok.level], "";
    while true
      invariant tok.buffer == old(tok.buffer) || fresh(tok.buffer)
      invariant tok.level <= tok.buffer.Length
      invariant tok.buffer[..tok.level] == before + raw
      invariant input == raw + io.data && '\n' !in raw
      decreases |io.data|
    {
      var chunk := io.Readline(CHUNK);
      if chunk == [] {
        assert input == raw;
        return true;
      }
      Append(tok, chunk);
      raw := raw + chunk;
      assert tok.buffer[..tok.level] == before + raw && input == raw + io.data;
      assert tok.buffer[..tok.level][tok.level - 1] == chunk[|chunk| - 1];
      assert forall i :: 0 <= i < |raw| - 1 ==> raw[i] != '\n';
      if tok.buffer[tok.level - 1] == '\n' {
        break;
      }
    }
    TakeLineSplit(raw, io.data);
    bye := false;
  }

  /** Strips the end of line and the blanks before it, down to `start`. */
  method TrimLine(tok: TokBuf, ghost start: nat)
    requires start < tok.level <= tok.buffer.Length
    requires start == 0 || tok.buffer[start - 1] == NUL
    modifies tok`level, tok.buffer
    ensures start <= tok.level < tok.buffer.Length
    ensures tok.buffer[start..tok.level] == Trim(old(tok.buffer[start..tok.level]))
    ensures forall i :: 0 <= i < start ==> tok.buffer[i] == old(tok.buffer[i])
    ensures forall i :: tok.level <= i < old(tok.level) ==> tok.buffer[i] == NUL
  {
    hide TrimBlanks, TrimCr;
    ghost var raw := tok.buffer[start..tok.level];
    DropLast(tok, start);
    assert tok.buffer[start..tok.level] == raw[..|raw| - 1];
    DropCr(tok, start);
    TrimBlanksInPlace(tok, start);
  }

  method DropCr(tok: TokBuf, ghost start: nat)
    requires start <= tok.level < tok.buffer.Length
    requires start == 0 || tok.buffer[start - 1] == NUL
    modifies tok`level, tok.buffer
    ensures start <= tok.level <= old(tok.level)
    ensures tok.buffer[start..tok.level] == TrimCr(old(tok.buffer[start..tok.level]))
    ensures forall i :: 0 <= i < start ==> tok.buffer[i] == old(tok.buffer[i])
    ensures forall i :: tok.level <= i < old(tok.level) ==> tok.buffer[i] == NUL
    ensures forall i :: old(tok.level) <= i < tok.buffer.Length ==> tok.buffer[i] == old(tok.buffer[i])
  {
    hide TrimCr;
    ghost var line := tok.buffer[start..tok.level];
    TrimCrShape(line);
    if tok.level > 0 && tok.buffer[tok.level - 1] == '\r' {
      DropLast(tok, start);
      assert tok.buffer[start..tok.level] == line[..|line| - 1];
    }
  }

  lemma TrimCrShape(s: string)
    ensures TrimCr(s) == if s != [] && s[|s| - 1] == '\r' then s[..|s| - 1] else s
  {
  }

  lemma TrimBlanksShape(s: string)
    ensures TrimBlanks(s) == if s != [] && IsBlank(s[|s| - 1]) then TrimBlanks(s[..|s| - 1]) else s
  {
  }

  method DropLast(tok: TokBuf, ghost start: nat)
    requires start < tok.level <= tok.buffer.Length
    modifies tok`level, tok.buffer
    ensures start <= tok.level == old(tok.level) - 1
    ensures tok.buffer[start..tok.level] == old(tok.buffer[start..tok.level - 1])
    ensures forall i :: 0 <= i < tok.buffer.Length && i != tok.level ==> tok.buffer[i] == old(tok.buffer[i])
    ensures tok.buffer[tok.level] == NUL
  {
    tok.level := tok.level - 1;
    tok.buffer[tok.level] := NUL;
  }

  method TrimBlanksInPlace(tok: TokBuf, ghost start: nat)
    requires start <= tok.level < tok.buffer.Length
    requires start == 0 || tok.buffer[start - 1] == NUL
    modifies tok`level, tok.buffer
    ensures start <= tok.level < tok.buffer.Length
    ensures tok.buffer[start..tok.level] == TrimBlanks(old(tok.buffer[start..tok.level]))
    ensures forall i :: 0 <= i < start || old(tok.level) <= i < tok.buffer.Length ==>
              tok.buffer[i] == old(tok.buffer[i])
    ensures forall i :: tok.level <= i < old(tok.level) ==> tok.buffer[i] == NUL
  {
    hide TrimBlanks;
    ghost var s := tok.buffer[start..tok.level];
    TrimBlanksShape(s);
    while tok.level > 0 && IsBlank(tok.buffer[tok.level - 1])
      invariant start <= tok.level < tok.buffer.Length
      invariant s == tok.buffer[start..tok.level]
      invariant TrimBlanks(s) == TrimBlanks(old(tok.buffer[start..tok.level]))
      invariant TrimBlanks(s) == if s != [] && IsBlank(s[|s| - 1]) then TrimBlanks(s[..|s| - 1]) else s
      invariant tok.level <= old(tok.level)
      invariant forall i :: 0 <= i < start || old(tok.level) <= i < tok.buffer.Length ==>
                tok.buffer[i] == old(tok.buffer[i])
      invariant forall i :: tok.level <= i < old(tok.level) ==> tok.buffer[i] == NUL
    {
      assert tok.level > start;
      DropLast(tok, start);
      s := s[..|s| - 1];
      TrimBlanksShape(s);
    }
  }

  /** The copying loop's invariant: what is packed so far, and the rest untouched. */
  ghost predicate Packing(now: string, orig: string, off: nat, buf: nat, p: nat, end: nat) {
    && off <= buf <= p <= end <= |now| == |orig|
    && (forall i :: 0 <= i < off || p <= i < |now| ==> now[i] == orig[i])
    && Decrlf(orig[off..end]) == now[off..buf] + Decrlf(orig[p..end])
  }

  lemma PackStart(orig: string, off: nat, end: nat)
    requires off <= end <= |orig|
    ensures Packing(orig, orig, off, off, off, end)
  {
    assert orig[off..off] + Decrlf(orig[off..end]) == Decrlf(orig[off..end]);
  }

  lemma Pack(now: string, orig: string, off: nat, buf: nat, p: nat, end: nat)
    requires Packing(now, orig, off, buf, p, end) && p < end
    ensures if now[p] == '\r' && p + 1 < end && now[p + 1] == '\n'
            then Packing(now, orig, off, buf, p + 1, end)
            else Packing(now[buf := now[p]], orig, off, buf + 1, p + 1, end)
  {
    hide Decrlf;
    var rest, next := orig[p..end], now[buf := now[p]];
    DecrlfStep(rest);
    assert rest[1..] == orig[p + 1..end];
    assert next[off..buf + 1] == now[off..buf] + [orig[p]];
    assert now[off..buf] + ([orig[p]] + Decrlf(rest[1..])) == now[off..buf] + [orig[p]] + Decrlf(rest[1..]);
  }

  lemma PackEnd(now: string, orig: string, off: nat, buf: nat, end: nat)
    requires Packing(now, orig, off, buf, end, end)
    ensures now[off..buf] == Decrlf(orig[off..end])
    ensures forall i :: 0 <= i < off || end <= i < |now| ==> now[i] == orig[i]
  {
    DecrlfStep(orig[end..end]);
  }

  /** imap4d_tokbuf_decrlf on `buffer[off..off + len]` */
  method DecrlfInPlace(a: array<char>, off: nat, len: nat) returns (rlen: nat)
    requires off + len <= a.Length
    modifies a
    ensures rlen <= len
    ensures a[off..off + rlen] == Decrlf(old(a[off..off + len]))
    ensures forall i :: 0 <= i < off || off + len <= i < a.Length ==> a[i] == old(a[i])
  {
    hide Decrlf, Packing;
    ghost var orig := a[..];
    var p: nat, buf: nat, end := off, off, off + len;
    rlen := len;
    PackStart(orig, off, end);
    while p < end
      invariant off <= buf <= p <= end && rlen == end - p + (buf - off)
      invariant Packing(a[..], orig, off, buf, p, end)
    {
      ghost var now := a[..];
      Pack(now, orig, off, buf, p, end);
      if a[p] == '\r' && p + 1 < end && a[p + 1] == '\n' {
        p := p + 1;
        rlen := rlen - 1;
      } else {
        a[buf] := a[p];
        assert a[..] == now[buf := now[p]];
        buf, p := buf + 1, p + 1;
      }
    }
    PackEnd(a[..], orig, off, buf, end);
    assert a[off..buf] == a[..][off..buf] && orig[off..end] == old(a[off..off + len]);
    assert forall i :: 0 <= i < a.Length ==> a[i] == a[..][i];
  }

  lemma DecrlfStep(s: string)
    ensures Decrlf(s) == if s == [] then []
                         else if s[0] == '\r' && |s| > 1 && s[1] == '\n' then Decrlf(s[1..])
                         else [s[0]] + Decrlf(s[1..])
  {
  }

  /** `n` NULs from `at` on. */
  ghost predicate Zeros(a: array<char>, at: nat, n: nat)
    reads a
  {
    at + n <= a.Length && forall i :: at <= i < at + n ==> a[i] == NUL
  }

  /** imap4d_tokbuf_getline */
  method GetLine(tok: TokBuf, io: Input) returns (off: nat, bye: bool)
    requires Ready(tok)
    modifies io`data, tok`buffer, tok`level, tok.buffer
    ensures tok.buffer == old(tok.buffer) || fresh(tok.buffer)
    ensures bye <==> TakeLine(old(io.data)).None?
    ensures !bye ==> var p := TakeLine(old(io.data)).value;
                     io.data == p.1 && tok.Valid() && Below(tok.argp, tok.args, off) &&
                     off <= tok.level && tok.buffer[off..tok.level] == Trim(p.0) &&
                     Zeros(tok.buffer, tok.level, |p.0| - |Trim(p.0)|)
  {
    hide Holds, Below, TakeLine, Trim;
    ghost var b0 := tok.buffer[..];
    off := tok.level;
    bye := ReadRaw(tok, io);
    if !bye {
      ghost var now := tok.buffer[..tok.level];
      assert now[..off] == b0[..off] && now[off..] == tok.buffer[off..tok.level];
      assert forall i :: 0 <= i < off ==> tok.buffer[i] == now[..off][i];
      TrimLine(tok, off);
      HoldsFrame(b0, tok.buffer[..], tok.argp, tok.args, off);
    }
  }

  /** Reads and tokenizes one segment. */
  method ReadSegmentLine(tok: TokBuf, io: Input) returns (bye: bool)
    requires Ready(tok)
    requires var p := TakeLine(io.data);
             p.Some? ==> Readable(Trim(p.value.0), |p.value.0| - |Trim(p.value.0)|)
    modifies io`data, tok, tok.buffer
    ensures tok.buffer == old(tok.buffer) || fresh(tok.buffer)
    ensures bye <==> TakeLine(old(io.data)).None?
    ensures !bye ==> var p := TakeLine(old(io.data)).value;
                     io.data == p.1 && tok.Valid() && BelowButLast(tok.argp, tok.args, tok.level) &&
                     tok.args == old(tok.args) + Lex(Trim(p.0)).value
  {
    hide Lex, LateGap, Holds, Below, BelowButLast, TakeLine, Trim;
    var off;
    off, bye := GetLine(tok, io);
    if !bye {
      tok.Tokenize(off);
    }
  }

  /** The bytes of a C string. */
  method CString(a: array<char>, off: nat, ghost s: string) returns (r: string)
    requires CStrAt(a[..], off, s)
    ensures r == s
  {
    ghost var end := off + |s|;
    assert s == a[off..end];
    assert forall i :: off <= i < end ==> a[i] == s[i - off] && a[i] != NUL;
    var n := off;
    while a[n] != NUL
      invariant off <= n <= end
      decreases end - n
    {
      n := n + 1;
    }
    assert n == end;
    r := a[off..n];
  }

  method CopyIn(a: array<char>, at: nat, chunk: string)
    requires at + |chunk| <= a.Length
    modifies a
    ensures a[at..at + |chunk|] == chunk
    ensures forall i :: 0 <= i < at ==> a[i] == old(a[i])
  {
    forall i | 0 <= i < |chunk| {
      a[at + i] := chunk[i];
    }
  }

  /** The read loop for a literal of `n` bytes: short reads are continued, and the
      end of the stream cuts the literal short. */
  method ReadLiteral(a: array<char>, off: nat, n: nat, io: Input) returns (len: nat)
    requires off + n <= a.Length
    modifies a, io`data
    ensures len == Shorter(n, |old(io.data)|)
    ensures a[off..off + len] == old(io.data)[..len] && io.data == old(io.data)[len..]
    ensures forall i :: 0 <= i < off ==> a[i] == old(a[i])
  {
    ghost var input := io.data;
    len := 0;
    while len < n
      invariant len <= n && len <= |input| && io.data == input[len..]
      invariant a[off..off + len] == input[..len]
      invariant forall i :: 0 <= i < off ==> a[i] == old(a[i])
    {
      var got := ReadChunk(a, off, len, n, io);
      if got == 0 {
        break;
      }
      SliceMore(input, len, got);
      len := len + got;
    }
  }

  lemma SliceMore(s: string, len: nat, got: nat)
    requires len + got <= |s|
    ensures s[..len] + s[len..][..got] == s[..len + got] && s[len..][got..] == s[len + got..]
  {
  }

  /** One read into the buffer, behind the `len` bytes that are there. */
  method ReadChunk(a: array<char>, off: nat, len: nat, n: nat, io: Input) returns (got: nat)
    requires len <= n && off + n <= a.Length
    modifies a, io`data
    ensures got <= n - len && got <= |old(io.data)| && (got == 0 <==> old(io.data) == [] || n == len)
    ensures io.data == old(io.data)[got..]
    ensures a[off..off + (len + got)] == old(a[off..off + len]) + old(io.data)[..got]
    ensures forall i :: 0 <= i < off ==> a[i] == old(a[i])
  {
    ghost var input, done := io.data, a[off..off + len];
    var chunk := io.Read(n - len);
    got := |chunk|;
    assert chunk == input[..got] && io.data == input[got..];
    CopyIn(a, off + len, chunk);
    assert a[off..off + len] == done;
    assert a[off..off + (len + got)] == a[off..off + len] + a[off + len..off + len + got];
  }

  /** imap4d_tokbuf_unquote and imap4d_tokbuf_decrlf on a literal just read at `off0`,
      and the NUL behind it: where the argument starts and how far the level rises. */
  method FinishLiteral(a: array<char>, off0: nat, len0: nat) returns (off: nat, len: nat)
    requires 0 < len0 && off0 + len0 < a.Length
    requires LiteralArg(a[off0..off0 + len0]).Some?
    modifies a
    ensures off0 <= off <= off0 + len && off0 + len < a.Length
    ensures CStrAt(a[..], off, LiteralArg(old(a[off0..off0 + len0])).value)
    ensures off + |LiteralArg(old(a[off0..off0 + len0])).value| == off0 + len
    ensures forall i :: 0 <= i < off0 ==> a[i] == old(a[i])
  {
    hide Unescape, Decrlf, CStrAt, LiteralArg;
    ghost var lit := a[off0..off0 + len0];
    LiteralShape(lit);
    off, len := off0, len0;
    assert lit[0] == a[off0] && lit[len0 - 1] == a[off0 + len0 - 1];
    ghost var s := lit;
    if a[off] == '"' && a[off + len - 1] == '"' {
      off := off + 1;
      assert a[off..off + (len - 1)] == lit[1..] && lit[1..][len - 2] == '"';
      len := Unquote.Unquote(a, off, len - 1);
      s := Unescape(lit[1..]).value;
    }
    assert a[off..off + len] == s;
    len := DecrlfInPlace(a, off, len);
    Terminate(a, off, off0 + len, LiteralArg(lit).value);
  }

  lemma LiteralShape(lit: string)
    requires LiteralArg(lit).Some? && lit != []
    ensures NulFree(LiteralArg(lit).value)
    ensures !Wrapped(lit) ==> LiteralArg(lit).value == Decrlf(lit)
    ensures Wrapped(lit) ==> Unescape(lit[1..]).Some? &&
                             var d := Decrlf(Unescape(lit[1..]).value);
                             d != [] && LiteralArg(lit).value == d[..|d| - 1]
  {
  }

  /** A NUL at `end` makes `a[off..end]` a C string. */
  method Terminate(a: array<char>, off: nat, end: nat, ghost v: string)
    requires off <= end < a.Length && a[off..end] == v && NulFree(v)
    modifies a
    ensures CStrAt(a[..], off, v)
    ensures forall i :: 0 <= i < a.Length && i != end ==> a[i] == old(a[i])
  {
    a[end] := NUL;
    assert a[..][off..off + |v|] == v;
  }

  /** The branch of imap4d_readline that reads a literal in place of its marker. */
  method SpliceLiteral(tok: TokBuf, io: Input, n: nat) returns (bye: bool)
    requires tok.Valid() && tok.args != [] && BelowButLast(tok.argp, tok.args, tok.level) && n > 0
    requires io.data != [] ==> LiteralArg(io.data[..Shorter(n, |io.data|)]).Some?
    modifies io`data, tok, tok.buffer
    ensures tok.buffer == old(tok.buffer) || fresh(tok.buffer)
    ensures bye <==> old(io.data) == []
    ensures !bye ==> var k := Shorter(n, |old(io.data)|);
                     Ready(tok) && tok.level > 0 && io.data == old(io.data)[k..] &&
                     tok.args == old(tok.args)[..|old(tok.args)| - 1] + [LiteralArg(old(io.data)[..k]).value]
  {
    hide LiteralArg, Holds, Below;
    ghost var b0, last := tok.buffer[..], |tok.args| - 1;
    ghost var ps, ts := tok.argp[..last], tok.args[..last];
    assert Holds(b0, ps, ts) by { HoldsPrefix(b0, tok.argp, tok.args, last); }
    tok.Expand(n + 1);
    var off := tok.level;
    var len := ReadLiteral(tok.buffer, off, n, io);
    if len == 0 {
      return true;
    }
    ghost var v := LiteralArg(tok.buffer[off..off + len]).value;
    var start;
    start, len := FinishLiteral(tok.buffer, off, len);
    Push(b0, tok.buffer[..], ps, ts, tok.level, start, v, tok.level + len + 1);
    tok.level := tok.level + len + 1;
    tok.argp := tok.argp[..|tok.argp| - 1] + [start];
    tok.args := ts + [v];
    bye := false;
  }

  lemma HoldsPrefix(b: string, argp: seq<nat>, args: seq<string>, n: nat)
    requires Holds(b, argp, args) && n <= |args|
    ensures Holds(b, argp[..n], args[..n])
  {
  }

  /** The last argument, when it is a marker: the invitation, if it asks for one, and the
      literal that takes its place. */
  method TakeLiteral(tok: TokBuf, io: Input) returns (more: bool, bye: bool)
    requires tok.Valid() && tok.args != [] && BelowButLast(tok.argp, tok.args, tok.level)
    requires var m := Marker(tok.args[|tok.args| - 1]);
             m.Some? ==> m.value > 0 && (io.data != [] ==> LiteralArg(io.data[..Shorter(m.value, |io.data|)]).Some?)
    modifies io, tok, tok.buffer
    ensures tok.buffer == old(tok.buffer) || fresh(tok.buffer)
    ensures var last := old(tok.args[|tok.args| - 1]);
            && (more <==> Marker(last).Some? && old(io.data) != [])
            && (bye <==> Marker(last).Some? && old(io.data) == [])
            && io.invitations == old(io.invitations) + (if Synchronising(last) then 1 else 0)
            && (more ==> var k := Shorter(Marker(last).value, |old(io.data)|);
                         Ready(tok) && io.data == old(io.data)[k..]
                         && tok.args == old(tok.args)[..|old(tok.args)| - 1] + [LiteralArg(old(io.data)[..k]).value])
    ensures !more && !bye ==> tok.Valid() && tok.args == old(tok.args)
    ensures !more && !bye ==> io.data == old(io.data) && io.invitations == old(io.invitations)
  {
    hide LiteralArg, Marker, Strtoul, Holds, Below, BelowButLast;
    more, bye := false, false;
    ghost var last := tok.args[|tok.args| - 1];
    LastHeld(tok.buffer[..], tok.argp, tok.args);
    var arg := CString(tok.buffer, tok.argp[|tok.argp| - 1], last);
    var marker := Marker(arg);
    if marker.Some? {
      MarkerShape(arg);
      if arg[1 + Strtoul(arg[1..]).1] == '}' {
        io.invitations := io.invitations + 1;
      }
      bye := SpliceLiteral(tok, io, marker.value);
      more := !bye;
    }
  }

  lemma MarkerShape(arg: string)
    requires Marker(arg).Some?
    ensures |arg| > 1 && 1 + Strtoul(arg[1..]).1 < |arg|
  {
    hide Strtoul;
  }

  /** imap4d_readline: reads a command, or finds the stream at its end. */
  method Readline(tok: TokBuf, io: Input) returns (bye: bool)
    requires tok.level <= tok.buffer.Length
    requires ReadCommand([], io.data) != OutsideDomain
    modifies io, tok, tok.buffer
    ensures tok.buffer == old(tok.buffer) || fresh(tok.buffer)
    ensures bye <==> ReadCommand([], old(io.data)) == Bye
    ensures !bye ==> tok.Valid() && ReadCommand([], old(io.data)) == Command(tok.args, io.data)
    ensures io.invitations == old(io.invitations) + GoAheads([], old(io.data))
  {
    hide Lex, LateGap, LiteralArg, TakeLine, Trim, Marker, Holds, Below, BelowButLast, Synchronising;
    hide ReadCommand, GoAheads;
    tok.argp, tok.args, tok.level := [], [], 0;
    NothingHeld(tok.buffer[..]);
    ghost var outcome, total := ReadCommand([], io.data), io.invitations + GoAheads([], io.data);
    var more := true;
    while more
      invariant tok.buffer == old(tok.buffer) || fresh(tok.buffer)
      invariant more ==> Ready(tok) && ReadCommand(tok.args, io.data) == outcome
                         && io.invitations + GoAheads(tok.args, io.data) == total
      invariant !more ==> !(outcome == Bye) && tok.Valid() && outcome == Command(tok.args, io.data)
                          && io.invitations == total
      decreases |io.data|, more
    {
      Round(tok.args, io.data);
      bye := ReadSegmentLine(tok, io);
      if bye {
        return;
      }
      more := false;
      if |tok.argp| != 0 {
        more, bye := TakeLiteral(tok, io);
        if bye {
          return;
        }
      }
    }
    bye := false;
  }

  /** One round of the loop, on values. */
  lemma Round(args: seq<string>, input: string)
    ensures TakeLine(input).None? ==> ReadCommand(args, input) == Bye && GoAheads(args, input) == 0
    ensures TakeLine(input).Some? && ReadCommand(args, input) != OutsideDomain ==>
              var (raw, rest) := TakeLine(input).value;
              var line := Trim(raw);
              && Readable(line, |raw| - |line|) && |rest| < |input|
              && var all := args + Lex(line).value;
                 if all == [] || Marker(all[|all| - 1]).None?
                 then ReadCommand(args, input) == Command(all, rest) && GoAheads(args, input) == 0
                 else SpliceRound(args, input, all, rest)
  {
    hide Lex, LateGap, LiteralArg, Marker, Trim, Synchronising;
  }

  /** The rest of a round, for a line that ends in a marker. */
  ghost predicate SpliceRound(args: seq<string>, input: string, all: seq<string>, rest: string)
    requires all != [] && Marker(all[|all| - 1]).Some?
  {
    var n := Marker(all[|all| - 1]).value;
    var k := Shorter(n, |rest|);
    var invited := if Synchronising(all[|all| - 1]) then 1 else 0;
    && n > 0
    && (rest == [] ==> ReadCommand(args, input) == Bye && GoAheads(args, input) == invited)
    && (rest != [] ==>
          LiteralArg(rest[..k]).Some?
          && var next := all[..|all| - 1] + [LiteralArg(rest[..k]).value];
             ReadCommand(args, input) == ReadCommand(next, rest[k..])
             && GoAheads(args, input) == invited + GoAheads(next, rest[k..]))
  }

  lemma NothingHeld(b: string)
    ensures Holds(b, [], []) && Below([], [], 0)
  {
  }

  lemma LastHeld(b: string, argp: seq<nat>, args: seq<string>)
    requires Holds(b, argp, args) && argp != []
    ensures CStrAt(b, argp[|argp| - 1], args[|args| - 1])
  {
  }
}
