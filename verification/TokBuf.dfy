/** The token buffer: one growing byte buffer that holds a command line and, after
    tokenizing, its tokens as NUL-terminated strings in place. */
module TokBuf {
  import opened Common
  import opened Lexer
  import opened Unquote

  /** `b` holds the C string `s` at offset `off`. */
  ghost predicate CStrAt(b: string, off: nat, s: string) {
    off + |s| < |b| && b[off..off + |s|] == s && b[off + |s|] == NUL && NulFree(s)
  }

  lemma CStrFrame(b: string, c: string, off: nat, s: string)
    requires CStrAt(b, off, s)
    requires |c| > off + |s| && forall i :: 0 <= i <= off + |s| ==> c[i] == b[i]
    ensures CStrAt(c, off, s)
  {
    assert c[off..off + |s|] == b[off..off + |s|];
  }

  /** All arguments, terminators included, lie below `limit`. */
  ghost predicate Below(argp: seq<nat>, args: seq<string>, limit: nat)
    requires |argp| == |args|
  {
    forall i :: 0 <= i < |argp| ==> argp[i] + |args[i]| < limit
  }

  /** Every recorded offset starts a NUL-terminated copy of its argument. */
  ghost predicate Holds(b: string, argp: seq<nat>, args: seq<string>) {
    && |argp| == |args|
    && forall i :: 0 <= i < |argp| ==> CStrAt(b, argp[i], args[i])
  }

  /** What lies below `limit` survives any change above it. */
  lemma HoldsFrame(b: string, c: string, argp: seq<nat>, args: seq<string>, limit: nat)
    requires Holds(b, argp, args) && Below(argp, args, limit) && limit <= |c|
    requires forall i :: 0 <= i < limit && i < |b| ==> c[i] == b[i]
    ensures Holds(c, argp, args)
  {
    forall i | 0 <= i < |argp| ensures CStrAt(c, argp[i], args[i]) {
      CStrFrame(b, c, argp[i], args[i]);
    }
  }

  ghost predicate BelowButLast(argp: seq<nat>, args: seq<string>, limit: nat)
    requires |argp| == |args|
  {
    argp != [] ==> Below(argp[..|argp| - 1], args[..|args| - 1], limit)
  }

  lemma BelowLast(argp: seq<nat>, args: seq<string>, limit: nat, more: nat)
    requires |argp| == |args| && Below(argp, args, limit) && limit <= more
    ensures BelowButLast(argp, args, more)
  {
  }

  lemma BelowOneMore(argp: seq<nat>, args: seq<string>, argp': seq<nat>, args': seq<string>, limit: nat)
    requires |argp| == |args| && Below(argp, args, limit)
    requires |argp'| == |args'| == |args| + 1 && argp'[..|argp|] == argp && args'[..|args|] == args
    ensures BelowButLast(argp', args', limit)
  {
  }

  lemma BelowMore(argp: seq<nat>, args: seq<string>, limit: nat, more: nat)
    requires |argp| == |args| && Below(argp, args, limit) && limit <= more
    ensures Below(argp, args, more)
  {
  }

  /** Recording a token keeps what the earlier offsets denote. */
  lemma Push(b: string, c: string, argp: seq<nat>, args: seq<string>, limit: nat,
             start: nat, tok: string, next: nat)
    requires Holds(b, argp, args) && Below(argp, args, limit) && limit <= |c|
    requires forall i :: 0 <= i < limit && i < |b| ==> c[i] == b[i]
    requires CStrAt(c, start, tok) && start + |tok| < next && limit <= next
    ensures Holds(c, argp + [start], args + [tok])
    ensures Below(argp + [start], args + [tok], next)
  {
    HoldsFrame(b, c, argp, args, limit);
  }

  /** The strchr loop of gettok.  Behind a quote that ends the line it looks at the byte
      above the level. */
  method ClosingQuote(a: array<char>, off: nat, level: nat, ghost q: nat) returns (p: nat)
    requires off < q < level <= a.Length && a[off] == '"' && a[q] == '"'
    requires a[q - 1] == '\\' ==> q == level - 1 && level < a.Length && a[level] == NUL
    requires forall i :: off < i < q && a[i] == '"' ==> a[i - 1] == '\\'
    requires forall i :: off <= i < level ==> a[i] != NUL
    ensures p == q
  {
    var start := off + 1;
    p := start;
    while a[start] != NUL
      invariant off < start <= q + 1 && start < a.Length && a[start - 1] == '"'
      invariant start == q + 1 ==> p == q && a[q - 1] == '\\'
      decreases level - start
    {
      p := FindByte(a, start, level, '"');
      if p == start || a[p - 1] != '\\' {
        break;
      }
      start := p + 1;
    }
  }

  class TokBuf {
    var buffer: array<char>
    var level: nat
    var argp: seq<nat>
    ghost var args: seq<string>

    ghost predicate Valid()
      reads this, buffer
    {
      level <= buffer.Length && |argp| == |args| && Holds(buffer[..], argp, args)
    }

    /** imap4d_tokbuf_init */
    constructor Init()
      ensures Valid() && fresh(buffer) && level == 0 && args == []
    {
      buffer := new char[0];
      level := 0;
      argp, args := [], [];
    }

    /** imap4d_tokbuf_from_string */
    constructor FromString(str: string)
      requires NulFree(str) && Lex(str).Some? && (LateGap(str).Some? ==> LateGap(str).value == 0)
      ensures Valid() && fresh(buffer) && args == Lex(str).value
    {
      buffer := new char[|str| + 1](i => if 0 <= i < |str| then str[i] else NUL);
      level := |str|;
      argp, args := [], [];
      new;
      assert buffer[0..level] == str;
      Tokenize(0);
    }

    /** imap4d_tokbuf_expand: room for `size` bytes above the level */
    method Expand(size: nat)
      requires level <= buffer.Length
      modifies this`buffer
      ensures buffer == old(buffer) || fresh(buffer)
      ensures buffer.Length >= level + size && buffer.Length >= old(buffer.Length)
      ensures forall i :: 0 <= i < old(buffer.Length) ==> buffer[i] == old(buffer[i])
    {
      if buffer.Length - level < size {
        var more := new char[level + size];
        forall i | 0 <= i < buffer.Length {
          more[i] := buffer[i];
        }
        buffer := more;
      }
    }

    /** insert_nul: a NUL at `off`, the rest of the line one byte up */
    method InsertNul(off: nat) returns (next: nat)
      requires off <= level <= buffer.Length
      modifies this`buffer, this`level, buffer
      ensures buffer == old(buffer) || fresh(buffer)
      ensures next == off + 1
      ensures level == (if off < old(level) then old(level) + 1 else old(level))
      ensures level <= buffer.Length && off < buffer.Length
      ensures buffer[off] == NUL
      ensures forall i :: 0 <= i < off ==> buffer[i] == old(buffer[i])
      ensures forall i :: off < i < level ==> buffer[i] == old(buffer[i - 1])
      ensures buffer.Length >= old(buffer.Length)
      ensures forall i :: level <= i < old(buffer.Length) && i != off ==> buffer[i] == old(buffer[i])
    {
      Expand(1);
      if off < level {
        MoveBytes(buffer, off + 1, off, level - off);
        level := level + 1;
      }
      buffer[off] := NUL;
      next := off + 1;
    }

    /** What is left of the line from `off` on; nothing once the closing NUL has
        been written past the end. */
    ghost function Ahead(off: nat): string
      requires level <= buffer.Length
      reads `buffer, `level, buffer
    {
      if off <= level then buffer[off..level] else []
    }

    /** Where a quoted string of the line from `off` on is closed late, the level will
        stand at a NUL when it is reached: the gaps opened before it move the level up
        to one that was there already. */
    ghost predicate Sealed(off: nat)
      requires level <= buffer.Length
      reads `buffer, `level, buffer
    {
      var gap := LateGap(Ahead(off));
      gap.Some? ==> level + gap.value < buffer.Length && buffer[level + gap.value] == NUL
    }

    /** The state between two tokens: arguments below `off`, a lexable line above. */
    ghost predicate Between(off: nat)
      reads this, buffer
    {
      && Valid() && Below(argp, args, off)
      && off <= level + 1
      && NulFree(Ahead(off)) && Lex(Ahead(off)).Some? && Sealed(off)
    }

    /** One token was appended: the first of what was ahead; the rest is still ahead. */
    twostate predicate Took(off0: nat, next: nat)
      requires old(Between(off0)) && Between(next)
      reads this, buffer
    {
      && level >= old(level) && level - next < old(level) - off0
      && |argp| == |args| == |old(args)| + 1
      && args[..|args| - 1] == old(args)
      && argp[..|argp| - 1] == old(argp)
      && Lex(old(Ahead(off0))) == Some([args[|args| - 1]] + Lex(Ahead(next)).value)
    }

    /** gettok */
    method GetTok(off0: nat) returns (next: nat)
      requires Between(off0) && off0 < level
      modifies this, buffer
      ensures buffer == old(buffer) || fresh(buffer)
      ensures Between(next) && Took(off0, next)
    {
      hide Lex, LateGap, Holds, Below;
      var off := SkipBlanks(off0);
      BelowMore(argp, args, off0, off);
      if buffer[off] == '"' {
        next := GetQuoted(off);
      } else {
        next := GetAtom(off);
      }
    }

    method SkipBlanks(off0: nat) returns (off: nat)
      requires off0 < level <= buffer.Length && Lex(buffer[off0..level]).Some?
      ensures off0 <= off < level && !IsBlank(buffer[off])
      ensures Lex(buffer[off..level]) == Lex(buffer[off0..level])
      ensures LateGap(buffer[off..level]) == LateGap(buffer[off0..level])
    {
      hide Lex, LateGap;
      ghost var line := buffer[off0..level];
      LexSkipBlanks(line);
      off := off0;
      while off < level && IsBlank(buffer[off])
        invariant off0 <= off <= level
        invariant forall i :: 0 <= i < off - off0 ==> IsBlank(line[i])
      {
        assert line[off - off0] == buffer[off];
        off := off + 1;
      }
      assert off < level ==> line[off - off0] == buffer[off];
      assert off == off0 + BlankSpan(line) && buffer[off..level] == line[off - off0..];
    }

    /** The quoted branch of gettok: unescapes between the quotes and terminates. */
    method GetQuoted(off0: nat) returns (next: nat)
      requires Between(off0) && off0 < level && buffer[off0] == '"'
      modifies this, buffer
      ensures buffer == old(buffer)
      ensures Between(next) && Took(off0, next)
    {
      hide Lex, LateGap, Unescape, Holds, Below, CStrAt;
      ghost var b0 := buffer[..];
      var p := QuotedEnd(off0);
      var off := off0 + 1;
      ghost var u := Unescape(buffer[off..p]).value;
      EndQuoted(off, p);
      Record(b0, off0, off, u, p + 1);
      next := p + 1;
    }

    /** Records the token `tok` at `start`; `was` is the buffer that held the others. */
    method Record(ghost was: string, ghost limit: nat, start: nat, ghost tok: string, ghost next: nat)
      requires Holds(was, argp, args) && Below(argp, args, limit) && limit <= next
      requires forall i :: 0 <= i < limit && i < |was| ==> i < buffer.Length && buffer[i] == was[i]
      requires level <= buffer.Length && limit <= buffer.Length
      requires CStrAt(buffer[..], start, tok) && start + |tok| < next
      modifies `argp, `args
      ensures Valid() && Below(argp, args, next)
      ensures |argp| == |args| == |old(args)| + 1
      ensures args[..|args| - 1] == old(args) && args[|args| - 1] == tok
      ensures argp[..|argp| - 1] == old(argp)
    {
      hide Holds, Below, CStrAt;
      Push(was, buffer[..], argp, args, limit, start, tok, next);
      argp := argp + [start];
      args := args + [tok];
    }

    method QuotedEnd(off0: nat) returns (p: nat)
      requires off0 < level <= buffer.Length && buffer[off0] == '"'
      requires NulFree(buffer[off0..level]) && Lex(buffer[off0..level]).Some? && Sealed(off0)
      ensures off0 < p < level && buffer[p] == '"' && Unescape(buffer[off0 + 1..p]).Some?
      ensures Lex(buffer[off0..level]) == Prepend(Unescape(buffer[off0 + 1..p]).value, Lex(buffer[p + 1..level]))
      ensures LateGap(buffer[p + 1..level]) == None || LateGap(buffer[p + 1..level]) == LateGap(buffer[off0..level])
    {
      hide Lex, LateGap, Unescape, CloseQuote;
      ghost var t := buffer[off0..level];
      QuotedStep(t);
      p := FindClosing(off0);
      ghost var q := CloseQuote(t, 1).value;
      assert buffer[p] == t[q];
      assert buffer[off0 + 1..p] == t[1..q];
      assert buffer[p + 1..level] == t[q + 1..];
    }

    /** Unescapes and terminates the body of a quoted string, in place. */
    method EndQuoted(off: nat, p: nat)
      requires off <= p < level <= buffer.Length && buffer[p] == '"'
      requires Unescape(buffer[off..p]).Some? && NulFree(buffer[off..p])
      modifies buffer
      ensures CStrAt(buffer[..], off, Unescape(old(buffer[off..p])).value)
      ensures forall i :: 0 <= i < off || p < i < buffer.Length ==> buffer[i] == old(buffer[i])
      ensures Ahead(p + 1) == old(Ahead(p + 1))
    {
      hide Unescape;
      ghost var u := Unescape(buffer[off..p]).value;
      UnescapeNulFree(buffer[off..p]);
      assert buffer[off..off + (p - off)] == buffer[off..p];
      var len := Unquote.Unquote(buffer, off, p - off);
      assert u == buffer[off..off + len];
      buffer[off + len] := NUL;
      assert u == buffer[off..off + len];
    }

    method FindClosing(off: nat) returns (p: nat)
      requires off < level <= buffer.Length && buffer[off] == '"' && NulFree(buffer[off..level])
      requires CloseQuote(buffer[off..level], 1).Some?
      requires Late(buffer[off..level], CloseQuote(buffer[off..level], 1).value) ==>
                level < buffer.Length && buffer[level] == NUL
      ensures p == off + CloseQuote(buffer[off..level], 1).value
    {
      hide CloseQuote;
      ghost var t := buffer[off..level];
      ghost var q := CloseQuote(t, 1).value;
      assert forall i :: off <= i < level ==> buffer[i] == t[i - off] && t[i - off] in t;
      p := ClosingQuote(buffer, off, level, off + q);
    }

    /** The other branch of gettok: a parenthesis alone, or a run up to the next
        blank or parenthesis. */
    method GetAtom(off0: nat) returns (next: nat)
      requires Between(off0) && off0 < level && buffer[off0] != '"' && !IsBlank(buffer[off0])
      modifies this, buffer
      ensures buffer == old(buffer) || fresh(buffer)
      ensures Between(next) && Took(off0, next)
    {
      hide Lex, LateGap, Holds, Below, CStrAt, Bump, NulFree;
      ghost var b0 := buffer[..];
      var off := AtomEnd(off0);
      ghost var tok := buffer[off0..off];
      next := CloseAtom(off0, off);
      Record(b0, off0, off0, tok, next);
    }

    /** Ending an atom keeps the rest of the line and what it needs. */
    method CloseAtom(off0: nat, off: nat) returns (next: nat)
      requires off0 < off <= level <= buffer.Length && Sealed(off0)
      requires NulFree(buffer[off0..off]) && NulFree(buffer[off..level])
      requires LateGap(buffer[off0..level]) == Bump(LateGap(buffer[off..level]))
      modifies this`buffer, this`level, buffer
      ensures buffer == old(buffer) || fresh(buffer)
      ensures next == off + 1 <= level + 1 && old(level) <= level <= buffer.Length
      ensures level - next < old(level) - off0
      ensures CStrAt(buffer[..], off0, old(buffer[off0..off]))
      ensures forall i :: 0 <= i < off0 ==> i < buffer.Length && buffer[i] == old(buffer[i])
      ensures Ahead(next) == old(buffer[off..level]) && NulFree(Ahead(next)) && Sealed(next)
    {
      hide Lex, LateGap, CStrAt, NulFree;
      NoGapAhead();
      ghost var gap := LateGap(buffer[off..level]);
      assert off == level ==> buffer[off..level] == [];
      ghost var at := if gap.Some? then level + gap.value + 1 else 0;
      assert gap.Some? ==> off < level && at < buffer.Length && buffer[at] == NUL;
      next := EndAtom(off0, off);
      assert gap.Some? ==> at < buffer.Length && buffer[at] == NUL && at == level + gap.value;
    }

    method AtomEnd(off0: nat) returns (off: nat)
      requires off0 < level <= buffer.Length && buffer[off0] != '"' && !IsBlank(buffer[off0])
      requires NulFree(buffer[off0..level])
      ensures off0 < off <= level && NulFree(buffer[off0..off]) && NulFree(buffer[off..level])
      ensures Lex(buffer[off0..level]) == Prepend(buffer[off0..off], Lex(buffer[off..level]))
      ensures LateGap(buffer[off0..level]) == Bump(LateGap(buffer[off..level]))
    {
      hide Lex, LateGap;
      ghost var t := buffer[off0..level];
      off := off0;
      if IsParen(buffer[off]) {
        LexParenStep(t);
        off := off + 1;
      } else {
        LexAtomStep(t);
        while off < level && !IsBlank(buffer[off]) && !IsParen(buffer[off])
          invariant off0 <= off <= level
          invariant forall i :: 0 <= i < off - off0 ==> !IsBlank(t[i]) && !IsParen(t[i])
        {
          assert t[off - off0] == buffer[off];
          off := off + 1;
        }
        assert off < level ==> t[off - off0] == buffer[off];
        assert off == off0 + AtomSpan(t);
      }
      NulFreeParts(t, off - off0);
      assert t[..off - off0] == buffer[off0..off] && t[off - off0..] == buffer[off..level];
    }

    /** Terminates the token `buffer[off0..off]` by opening a gap behind it. */
    method EndAtom(off0: nat, off: nat) returns (next: nat)
      requires off0 < off <= level <= buffer.Length && NulFree(buffer[off0..off])
      modifies this`buffer, this`level, buffer
      ensures buffer == old(buffer) || fresh(buffer)
      ensures next == off + 1 <= level + 1 && old(level) <= level <= buffer.Length
      ensures level - next < old(level) - off0
      ensures CStrAt(buffer[..], off0, old(buffer[off0..off]))
      ensures forall i :: 0 <= i < off0 ==> i < buffer.Length && buffer[i] == old(buffer[i])
      ensures Ahead(next) == old(buffer[off..level])
      ensures off < old(level) ==> level == old(level) + 1
      ensures buffer.Length >= old(buffer.Length)
      ensures forall i :: off < i && level <= i < old(buffer.Length) ==> buffer[i] == old(buffer[i])
    {
      ghost var tok, rest := buffer[off0..off], buffer[off..level];
      next := InsertNul(off);
      assert buffer[off0..off] == tok;
      if off < old(level) {
        assert forall i :: off < i < level ==> buffer[i] == rest[i - 1 - off];
        assert buffer[next..level] == rest;
      }
    }

    /** The loop invariant of tokenize: `all` is what the line will have added. */
    ghost predicate Progress(off: nat, all: seq<string>, first: seq<nat>)
      reads this, buffer
    {
      && Between(off) && BelowButLast(argp, args, level)
      && all == args + Lex(Ahead(off)).value
      && |first| <= |argp| && argp[..|first|] == first
    }

    method Advance(off: nat, ghost all: seq<string>, ghost first: seq<nat>) returns (next: nat)
      requires Progress(off, all, first) && off < level
      modifies this, buffer
      ensures buffer == old(buffer) || fresh(buffer)
      ensures Progress(next, all, first)
      ensures level >= old(level) && level - next < old(level) - off
    {
      hide Lex, LateGap, Holds, Below, BelowButLast;
      BelowMore(argp, args, off, level);
      ghost var before, ps, limit := args, argp, level;
      next := GetTok(off);
      assert args == before + [args[|args| - 1]];
      BelowMore(ps, before, limit, level);
      BelowOneMore(ps, before, argp, args, level);
    }

    /** imap4d_tokbuf_tokenize: afterwards each offset recorded starts a copy of its
        token, and the earlier arguments are as they were. */
    method Tokenize(off0: nat)
      requires Valid() && off0 <= level && Below(argp, args, off0)
      requires NulFree(buffer[off0..level]) && Lex(buffer[off0..level]).Some? && Sealed(off0)
      modifies this, buffer
      ensures buffer == old(buffer) || fresh(buffer)
      ensures Valid() && Below(argp, args, level + 1) && level >= old(level)
      ensures args == old(args) + Lex(old(buffer[off0..level])).value
      ensures BelowButLast(argp, args, level)
      ensures |argp| >= |old(argp)| && argp[..|old(argp)|] == old(argp)
    {
      hide Lex, LateGap, Holds, Below, BelowButLast;
      var off: nat := off0;
      ghost var all := args + Lex(buffer[off0..level]).value;
      BelowLast(argp, args, off0, level);
      while off < level
        invariant buffer == old(buffer) || fresh(buffer)
        invariant Progress(off, all, old(argp)) && level >= old(level)
        decreases level - off
      {
        off := Advance(off, all, old(argp));
      }
      LexNothing();
      assert Ahead(off) == [] && all == args;
      BelowMore(argp, args, off, level + 1);
    }
  }

  /** The first token of a line that starts with a quote. */
  lemma QuotedStep(t: string)
    requires t != [] && t[0] == '"' && Lex(t).Some?
    ensures CloseQuote(t, 1).Some?
    ensures var q := CloseQuote(t, 1).value;
            && 0 < q < |t| && t[q] == '"' && Unescape(t[1..q]).Some?
            && Lex(t) == Prepend(Unescape(t[1..q]).value, Lex(t[q + 1..]))
            && (Late(t, q) ==> LateGap(t) == Some(0))
            && (LateGap(t[q + 1..]) == None || LateGap(t[q + 1..]) == LateGap(t))
  {
    hide Lex, LateGap, Unescape;
    LexQuoteStep(t);
    NoGapAhead();
    var q := CloseQuote(t, 1).value;
    if Late(t, q) {
      assert q == |t| - 1;
      assert t[q + 1..] == [];
    }
  }

  lemma NulFreeParts(s: string, n: nat)
    requires NulFree(s) && n <= |s|
    ensures NulFree(s[..n]) && NulFree(s[n..])
  {
  }

  lemma LexNothing()
    ensures Lex([]) == Some([])
  {
  }

  lemma NoGapAhead()
    ensures LateGap([]) == None
  {
  }

  lemma {:induction false} UnescapeNulFree(s: string)
    requires Unescape(s).Some? && NulFree(s)
    ensures NulFree(Unescape(s).value)
  {
    if s != [] {
      if s[0] != '\\' {
        UnescapeNulFree(s[1..]);
      } else if |s| > 1 {
        UnescapeNulFree(s[2..]);
      }
    }
  }
}
