/** The second lexer: splits each argument again at delimiter characters, inside
    the token buffer, by overwriting one byte at a time and restoring it later. */
module ParseBuf {
  import opened Common
  import opened Lexer
  import opened TokBuf
  import CommandReader

  // ---------- the pieces as a pure function ----------

  /** strcspn: the length of the longest prefix without a delimiter. */
  function RunSpan(s: string, delims: string): (n: nat)
    ensures n <= |s|
    ensures forall i :: 0 <= i < n ==> s[i] !in delims
    ensures n < |s| ==> s[n] in delims
  {
    if s == [] || s[0] in delims then 0 else 1 + RunSpan(s[1..], delims)
  }

  /** The length of the first piece of a non-empty text. */
  function PieceLen(s: string, delims: string): (n: nat)
    requires s != []
    ensures 1 <= n <= |s|
  {
    if s[0] in delims then 1 else RunSpan(s, delims)
  }

  function Split(s: string, delims: string): seq<string> {
    if s == [] then [] else [s[..PieceLen(s, delims)]] + Split(s[PieceLen(s, delims)..], delims)
  }

  /** The pieces of one argument; an empty one is a piece. */
  function PiecesOf(s: string, delim: Option<string>): seq<string> {
    match delim
    case None => [s]
    case Some(d) => if s == [] then [s] else Split(s, d)
  }

  function Pieces(args: seq<string>, delim: Option<string>): seq<string> {
    if args == [] then [] else PiecesOf(args[0], delim) + Pieces(args[1..], delim)
  }

  function Concat(ss: seq<string>): string {
    if ss == [] then [] else ss[0] + Concat(ss[1..])
  }

  predicate IsRun(p: string, delims: string) {
    p != [] && forall i :: 0 <= i < |p| ==> p[i] !in delims
  }

  predicate IsDelimiter(p: string, delims: string) {
    |p| == 1 && p[0] in delims
  }

  ghost predicate Maximal(ps: seq<string>, delims: string) {
    && (forall i :: 0 <= i < |ps| ==> IsDelimiter(ps[i], delims) || IsRun(ps[i], delims))
    && (forall i :: 0 < i < |ps| ==> IsDelimiter(ps[i - 1], delims) || IsDelimiter(ps[i], delims))
  }

  lemma MaximalCons(p: string, more: seq<string>, delims: string)
    requires Maximal(more, delims) && (IsDelimiter(p, delims) || IsRun(p, delims))
    requires more != [] ==> IsDelimiter(p, delims) || IsDelimiter(more[0], delims)
    ensures Maximal([p] + more, delims)
  {
    var ps := [p] + more;
    assert forall i :: 1 <= i < |ps| ==> ps[i] == more[i - 1];
  }

  lemma SplitHead(s: string, delims: string)
    requires s != []
    ensures var n := PieceLen(s, delims);
            Split(s, delims) == [s[..n]] + Split(s[n..], delims)
    ensures if s[0] in delims then IsDelimiter(s[..PieceLen(s, delims)], delims)
            else IsRun(s[..PieceLen(s, delims)], delims)
  {
  }

  /** The pieces of an argument are its delimiters, each alone, and its maximal runs
      without one; in order they make up the argument. */
  lemma {:induction false} SplitShape(s: string, delims: string)
    ensures Concat(Split(s, delims)) == s
    ensures Maximal(Split(s, delims), delims)
  {
    hide Split, Maximal, IsDelimiter, IsRun;
    if s == [] {
      SplitNothing(delims);
    } else {
      var n := PieceLen(s, delims);
      var more := Split(s[n..], delims);
      SplitShape(s[n..], delims);
      SplitHead(s, delims);
      if n < |s| {
        SplitHead(s[n..], delims);
      } else {
        SplitNothing(delims);
      }
      MaximalCons(s[..n], more, delims);
      assert ([s[..n]] + more)[1..] == more;
    }
  }

  lemma SplitNothing(delims: string)
    ensures Split([], delims) == [] && Maximal([], delims)
  {
  }

  /** What strchr (delim, c) finds: the terminator of `delim` counts as well. */
  predicate Strchr(delims: string, c: char) {
    c == NUL || c in delims
  }

  // ---------- the pieces as the bytes of the buffer have them ----------

  /** The C string at `off`. */
  function CStr(b: string, off: nat): string {
    if off <= |b| then b[off..][..RunSpan(b[off..], [NUL])] else []
  }

  /** The C string at `off` ends inside the buffer. */
  ghost predicate Ends(b: string, off: nat) {
    CStrAt(b, off, CStr(b, off))
  }

  lemma CStrIs(b: string, off: nat, s: string)
    requires CStrAt(b, off, s)
    ensures CStr(b, off) == s && Ends(b, off)
  {
    assert b[off..off + |s|] == s;
    var n := RunSpan(b[off..], [NUL]);
    assert b[off..][|s|] == NUL;
    assert forall i :: 0 <= i < |s| ==> b[off..][i] == s[i] && s[i] in s;
    assert n == |s| && b[off..][..n] == s;
  }

  /** How far the buffer goes on behind the start of a text: behind an empty one the
      byte after its terminator is next, since strchr finds that terminator. */
  function StepLen(s: string, delims: string): (n: nat)
    ensures n >= 1
  {
    if s == [] then 1 else PieceLen(s, delims)
  }

  function FirstOfText(s: string, delims: string): string {
    if s == [] then [] else s[..PieceLen(s, delims)]
  }

  /** The pieces that the parse buffer makes of the argument at `off`. */
  function PiecesAt(b: string, off: nat, delim: Option<string>): seq<string> {
    match delim
    case None => [CStr(b, off)]
    case Some(d) =>
      var s := CStr(b, off);
      [FirstOfText(s, d)] + Split(CStr(b, off + StepLen(s, d)), d)
  }

  function PiecesFrom(b: string, argp: seq<nat>, delim: Option<string>): seq<string> {
    if argp == [] then [] else PiecesAt(b, argp[0], delim) + PiecesFrom(b, argp[1..], delim)
  }

  lemma PiecesAtText(b: string, off: nat, s: string, d: string)
    requires CStrAt(b, off, s)
    ensures s != [] ==> PiecesAt(b, off, Some(d)) == Split(s, d)
    ensures s == [] ==> PiecesAt(b, off, Some(d)) == [s] + Split(CStr(b, off + 1), d)
  {
    hide CStr, CStrAt, Split;
    CStrIs(b, off, s);
    if s != [] {
      SplitHead(s, d);
      CStrSuffix(b, off, s, PieceLen(s, d));
      CStrIs(b, off + PieceLen(s, d), s[PieceLen(s, d)..]);
    }
  }

  /** No empty argument has anything but a NUL behind its terminator. */
  ghost predicate NothingBehind(b: string, argp: seq<nat>, args: seq<string>)
    requires |argp| == |args|
  {
    forall i :: 0 <= i < |args| && args[i] == [] ==> CStr(b, argp[i] + 1) == []
  }

  lemma NothingBehindCons(b: string, argp: seq<nat>, args: seq<string>)
    requires |argp| == |args| && args != []
    ensures NothingBehind(b, argp, args) <==>
            (args[0] == [] ==> CStr(b, argp[0] + 1) == []) && NothingBehind(b, argp[1..], args[1..])
  {
    hide CStr;
    if NothingBehind(b, argp[1..], args[1..]) && (args[0] == [] ==> CStr(b, argp[0] + 1) == []) {
      forall i | 0 <= i < |args| && args[i] == [] ensures CStr(b, argp[i] + 1) == [] {
        assert i > 0 ==> args[1..][i - 1] == args[i] && argp[1..][i - 1] == argp[i];
      }
    }
    if NothingBehind(b, argp, args) {
      forall i | 0 <= i < |args| - 1 && args[1..][i] == [] ensures CStr(b, argp[1..][i] + 1) == [] {
        assert args[i + 1] == [] && argp[1..][i] == argp[i + 1];
      }
    }
  }

  /** The parse buffer splits the arguments, and only them, if and only if no empty
      argument has text behind it in the buffer: such a text is split with it. */
  lemma {:induction false} SplitsArgsExactly(b: string, argp: seq<nat>, args: seq<string>, d: string)
    requires Holds(b, argp, args)
    ensures PiecesFrom(b, argp, Some(d)) == Pieces(args, Some(d)) <==> NothingBehind(b, argp, args)
    ensures |PiecesFrom(b, argp, Some(d))| >= |Pieces(args, Some(d))|
  {
    hide PiecesAt, PiecesOf, Split, CStr, CStrAt;
    if args != [] {
      SplitsArgsExactly(b, argp[1..], args[1..], d);
      NothingBehindCons(b, argp, args);
      HereExactly(b, argp[0], args[0], d);
      var p, q := PiecesAt(b, argp[0], Some(d)), PiecesOf(args[0], Some(d));
      var ps, qs := PiecesFrom(b, argp[1..], Some(d)), Pieces(args[1..], Some(d));
      if p + ps == q + qs {
        assert |p| == |q| && |ps| == |qs|;
        assert p == (p + ps)[..|p|] && ps == (p + ps)[|p|..];
        assert q == (q + qs)[..|p|] && qs == (q + qs)[|p|..];
      }
    }
  }

  lemma HereExactly(b: string, off: nat, s: string, d: string)
    requires CStrAt(b, off, s)
    ensures PiecesAt(b, off, Some(d)) == PiecesOf(s, Some(d)) <==> (s == [] ==> CStr(b, off + 1) == [])
    ensures |PiecesAt(b, off, Some(d))| >= |PiecesOf(s, Some(d))|
    ensures |PiecesAt(b, off, Some(d))| == |PiecesOf(s, Some(d))| ==>
              PiecesAt(b, off, Some(d)) == PiecesOf(s, Some(d))
  {
    hide CStr, CStrAt;
    PiecesAtText(b, off, s, d);
  }

  /** The tokens of the line `"" x`: the second argument is returned twice. */
  lemma ReadTwice()
    ensures Lex("\"\" x") == Some(["", "x"])
    ensures Holds("\"\0 x\0", [1, 3], ["", "x"])
    ensures PiecesFrom("\"\0 x\0", [1, 3], Some(".")) == ["", " x", "x"]
  {
    hide PiecesAt, Split, CStr, Lex;
    LexTwo();
    var b := "\"\0 x\0";
    TwoStrings();
    CStrIs(b, 2, " x");
    PiecesAtText(b, 1, "", ".");
    PiecesAtText(b, 3, "x", ".");
    OneRun("x");
    OneRun(" x");
    TwoOffsets(b, 1, 3, ".");
  }

  lemma TwoStrings()
    ensures var b := "\"\0 x\0"; CStrAt(b, 1, "") && CStrAt(b, 2, " x") && CStrAt(b, 3, "x")
  {
    var b := "\"\0 x\0";
    assert b[1..1] == "" && b[3..4] == "x" && b[2..4] == " x";
  }

  lemma TwoOffsets(b: string, i: nat, j: nat, d: string)
    ensures PiecesFrom(b, [i, j], Some(d)) == PiecesAt(b, i, Some(d)) + PiecesAt(b, j, Some(d))
  {
    hide PiecesAt;
    var last, none: seq<nat> := [j], [];
    assert [i, j][1..] == last && last[1..] == none && PiecesFrom(b, none, Some(d)) == [];
    assert PiecesFrom(b, last, Some(d)) == PiecesAt(b, j, Some(d)) + [];
  }

  lemma LexTwo()
    ensures Lex("\"\" x") == Some(["", "x"])
  {
    hide Lex, IsWord, Join;
    WordX();
    LexWords(["x"]);
    LexBlanks(" ", "x");
    assert " x" == " " + "x";
    QuoteRoundTrip("", " x");
    assert Quote("") + " x" == "\"\" x" && !EndsInBackslash("");
    assert [""] + ["x"] == ["", "x"];
  }

  lemma WordX()
    ensures IsWord("x") && Join(["x"]) == "x"
  {
  }

  lemma OneRun(s: string)
    requires s != [] && IsRun(s, ".")
    ensures Split(s, ".") == [s]
  {
    var n := RunSpan(s, ".");
    assert n == |s| by {
      assert forall i :: 0 <= i < |s| ==> s[i] !in ".";
    }
    var none: string := [];
    assert s[n..] == none && s[..n] == s && Split(none, ".") == [];
  }

  // ---------- positions in the buffer ----------

  /** The fields of the parse buffer that say where it stands: the number of the next
      argument, the start of the present one, the current token, the length of its
      piece, and the byte saved from behind it. */
  datatype Cursor = Cursor(arg: nat, tokptr: Option<nat>, token: nat, tokoff: nat, saveChar: char)

  /** The tokens being split: the buffer's original bytes and the offsets in them. */
  datatype Source = Source(orig: string, argp: seq<nat>, delim: Option<string>)

  /** The argument at `off` can be read, and what follows its terminator if it is empty. */
  ghost predicate Readable(b: string, off: nat, delim: Option<string>) {
    Ends(b, off) && (delim.Some? && CStr(b, off) == [] ==> Ends(b, off + 1))
  }

  ghost predicate GoodSource(src: Source) {
    && (src.delim.Some? ==> NulFree(src.delim.value))
    && forall i :: 0 <= i < |src.argp| ==> Readable(src.orig, src.argp[i], src.delim)
  }

  /** The text from the current token on. */
  ghost function Tail(src: Source, c: Cursor): string {
    CStr(src.orig, c.token)
  }

  ghost predicate Stands(src: Source, c: Cursor) {
    if c.tokptr.None? then c.saveChar == NUL
    else
      && Ends(src.orig, c.token)
      && if src.delim.None? then c.saveChar == NUL
         else
           && c.tokoff == StepLen(Tail(src, c), src.delim.value)
           && Ends(src.orig, c.token + c.tokoff) && c.saveChar == src.orig[c.token + c.tokoff]
  }

  /** The buffer differs from the original in at most one byte: the one behind the
      current token, which is zero there and kept in `saveChar`. */
  ghost predicate OneHole(now: string, src: Source, c: Cursor) {
    if c.saveChar == NUL then now == src.orig
    else c.token + c.tokoff < |src.orig| && src.orig[c.token + c.tokoff] == c.saveChar
         && now == src.orig[c.token + c.tokoff := NUL]
  }

  ghost function Later(src: Source, arg: nat): seq<string> {
    if arg <= |src.argp| then PiecesFrom(src.orig, src.argp[arg..], src.delim) else []
  }

  /** The pieces that have not been returned yet. */
  ghost function Left(src: Source, c: Cursor): seq<string>
    requires Stands(src, c)
  {
    (if c.tokptr.None? || src.delim.None? then [] else Split(CStr(src.orig, c.token + c.tokoff), src.delim.value))
    + Later(src, c.arg)
  }

  ghost function CurrentPiece(src: Source, c: Cursor): Option<string> {
    if c.tokptr.None? then None
    else if src.delim.None? then Some(Tail(src, c))
    else Some(FirstOfText(Tail(src, c), src.delim.value))
  }

  /** A C string is empty when its first byte is the terminator, and only then. */
  lemma CStrEmpty(b: string, off: nat)
    requires Ends(b, off)
    ensures off < |b| && (CStr(b, off) == [] <==> b[off] == NUL)
    ensures CStr(b, off) != [] ==> CStr(b, off)[0] == b[off]
  {
    var s := CStr(b, off);
    assert b[off..off + |s|] == s;
    assert s != [] ==> s[0] == b[off] && s[0] in s;
  }

  /** At the end of an argument nothing of it is left. */
  lemma LeftAtEnd(src: Source, c: Cursor)
    requires Stands(src, c) && c.saveChar == NUL
    ensures Left(src, c) == Later(src, c.arg)
  {
    hide CStr, Ends, Later, StepLen;
    if c.tokptr.Some? && src.delim.Some? {
      CStrEmpty(src.orig, c.token + c.tokoff);
    }
  }

  /** A suffix of a C string is one, and so is a prefix once it is terminated. */
  lemma CStrSuffix(b: string, off: nat, s: string, k: nat)
    requires CStrAt(b, off, s) && k <= |s|
    ensures CStrAt(b, off + k, s[k..])
  {
    assert b[off..off + |s|] == s;
    assert b[off + k..off + |s|] == s[k..];
    assert forall i :: 0 <= i < |s[k..]| ==> s[k..][i] in s;
  }

  lemma CStrPrefix(b: string, off: nat, s: string, n: nat)
    requires CStrAt(b, off, s) && n <= |s|
    ensures CStrAt(b[off + n := NUL], off, s[..n])
  {
    assert b[off..off + |s|] == s;
    assert b[off + n := NUL][off..off + n] == s[..n];
    assert forall i :: 0 <= i < n ==> s[..n][i] in s;
  }

  /** Where the hole behind the first piece of the text at `off` lies. */
  lemma HoleAt(b: string, off: nat, delims: string)
    requires Ends(b, off) && (CStr(b, off) == [] ==> Ends(b, off + 1))
    ensures var n := StepLen(CStr(b, off), delims);
            && off + n < |b| && Ends(b, off + n)
            && CStrAt(b[off + n := NUL], off, FirstOfText(CStr(b, off), delims))
  {
    hide CStr, CStrAt, PieceLen;
    var s := CStr(b, off);
    if s == [] {
      EmptyHole(b, off);
    } else {
      var n := PieceLen(s, delims);
      CStrSuffix(b, off, s, n);
      CStrIs(b, off + n, s[n..]);
      CStrPrefix(b, off, s, n);
      CStrEmpty(b, off + n);
    }
  }

  /** Behind an empty string any byte can be overwritten. */
  lemma EmptyHole(b: string, off: nat)
    requires CStrAt(b, off, []) && Ends(b, off + 1)
    ensures off + 1 < |b| && CStrAt(b[off + 1 := NUL], off, [])
  {
    CStrEmpty(b, off + 1);
    assert b[off + 1 := NUL][off..off] == [];
  }

  /** Cutting the text at the current token after its first piece. */
  lemma CutHere(src: Source, c: Cursor)
    requires src.delim.Some? && c.tokptr.Some? && Ends(src.orig, c.token)
    requires Tail(src, c) == [] ==> Ends(src.orig, c.token + 1)
    ensures var n := StepLen(Tail(src, c), src.delim.value);
            && c.token + n < |src.orig|
            && var cut := c.(tokoff := n, saveChar := src.orig[c.token + n]);
            && Stands(src, cut) && OneHole(src.orig[c.token + n := NUL], src, cut)
            && Left(src, cut) == Split(CStr(src.orig, c.token + n), src.delim.value) + Later(src, c.arg)
            && CStrAt(src.orig[c.token + n := NUL], c.token, FirstOfText(Tail(src, c), src.delim.value))
  {
    hide CStr, CStrAt, Ends, Later, Split, StepLen, FirstOfText;
    HoleAt(src.orig, c.token, src.delim.value);
    var n := StepLen(Tail(src, c), src.delim.value);
    assert src.orig[c.token + n] == NUL ==> src.orig[c.token + n := NUL] == src.orig;
  }

  /** Moving on inside an argument: the pieces left are those of the new tail. */
  lemma Advance(src: Source, c: Cursor)
    requires Stands(src, c) && c.tokptr.Some? && c.saveChar != NUL
    ensures src.delim.Some?
    ensures var next := c.(token := c.token + c.tokoff);
            && Ends(src.orig, next.token) && Tail(src, next) != [] && Tail(src, next)[0] == c.saveChar
            && Left(src, c) == Split(Tail(src, next), src.delim.value) + Later(src, c.arg)
  {
    hide CStr, Ends, Later, StepLen, Split;
    CStrEmpty(src.orig, c.token + c.tokoff);
  }

  /** Moving on to the next argument. */
  lemma Enter(src: Source, c: Cursor)
    requires GoodSource(src) && c.arg < |src.argp|
    ensures var off := src.argp[c.arg];
            && Readable(src.orig, off, src.delim)
            && Later(src, c.arg) == PiecesAt(src.orig, off, src.delim) + Later(src, c.arg + 1)
  {
    hide PiecesAt, Readable;
    assert src.argp[c.arg..][1..] == src.argp[c.arg + 1..];
  }

  /** Returning the first piece of the argument at `off`. */
  lemma FirstAt(b: string, off: nat, d: string, later: seq<string>)
    ensures var s := CStr(b, off);
            var ps := PiecesAt(b, off, Some(d)) + later;
            ps != [] && ps[0] == FirstOfText(s, d) && ps[1..] == Split(CStr(b, off + StepLen(s, d)), d) + later
  {
    hide CStr, Split, FirstOfText, StepLen;
    var s := CStr(b, off);
    AppendAssoc([FirstOfText(s, d)], Split(CStr(b, off + StepLen(s, d)), d), later);
  }

  /** Returning the first piece of what is left of an argument. */
  lemma FirstPiece(b: string, off: nat, d: string, later: seq<string>)
    requires Ends(b, off) && CStr(b, off) != []
    ensures var s := CStr(b, off);
            var ps := Split(s, d) + later;
            ps != [] && ps[0] == FirstOfText(s, d) && ps[1..] == Split(CStr(b, off + StepLen(s, d)), d) + later
  {
    hide CStr, Split, FirstOfText, StepLen, CStrAt, PiecesAt;
    PiecesAtText(b, off, CStr(b, off), d);
    FirstAt(b, off, d, later);
  }

  // ---------- the parse buffer ----------

  datatype Step = Token(s: string) | End | TooFew

  class ParseBuf {
    const tok: TokBuf
    const delim: Option<string>
    var arg: nat
    var tokptr: Option<nat>
    var token: nat
    var tokoff: nat
    var saveChar: char
    var peekPtr: Option<string>
    ghost const orig: string

    ghost function Where(): Cursor
      reads this
    {
      Cursor(arg, tokptr, token, tokoff, saveChar)
    }

    ghost function Src(): Source
      reads this, tok
    {
      Source(orig, tok.argp, delim)
    }

    ghost predicate Valid()
      reads this, tok, tok.buffer
    {
      && GoodSource(Src()) && Stands(Src(), Where()) && OneHole(tok.buffer[..], Src(), Where())
      && (peekPtr.Some? ==> Upcoming() != [] && peekPtr.value == Upcoming()[0])
    }

    /** The pieces that have not been returned yet. */
    ghost function Upcoming(): seq<string>
      requires Stands(Src(), Where())
      reads this, tok
    {
      Left(Src(), Where())
    }

    /** The current token. */
    ghost function Current(): Option<string>
      requires Stands(Src(), Where())
      reads this, tok
    {
      CurrentPiece(Src(), Where())
    }

    /** imap4d_with_parsebuf */
    constructor (tok: TokBuf, arg: nat, delim: Option<string>)
      requires tok.Valid() && (delim.Some? ==> NulFree(delim.value))
      requires forall i :: 0 <= i < |tok.argp| ==> Readable(tok.buffer[..], tok.argp[i], delim)
      ensures Valid() && this.tok == tok && this.delim == delim && orig == tok.buffer[..]
      ensures Current() == None
      ensures Upcoming() == if arg <= |tok.argp| then PiecesFrom(orig, tok.argp[arg..], delim) else []
    {
      this.tok, this.arg, this.delim := tok, arg, delim;
      tokptr, tokoff, saveChar, token, peekPtr := None, 0, NUL, 0, None;
      orig := tok.buffer[..];
    }

    /** strcspn on the C string at `off` */
    method Cspn(off: nat, delims: string, ghost t: string) returns (n: nat)
      requires CStrAt(tok.buffer[..], off, t)
      ensures n == RunSpan(t, delims)
    {
      ghost var end := off + |t|;
      assert t == tok.buffer[off..end];
      assert forall i :: off <= i < end ==> tok.buffer[i] == t[i - off] && tok.buffer[i] != NUL;
      var p := off;
      while !Strchr(delims, tok.buffer[p])
        invariant off <= p <= off + RunSpan(t, delims)
        decreases end - p
      {
        p := p + 1;
      }
      n := p - off;
    }

    /** How far the hole behind the piece at `token` is. */
    method Measure(delims: string, ghost t: string) returns (n: nat)
      requires CStrAt(tok.buffer[..], token, t)
      ensures n == StepLen(t, delims)
    {
      assert tok.buffer[token..token + |t|] == t;
      assert t != [] ==> tok.buffer[token] == t[0] && t[0] in t;
      if Strchr(delims, tok.buffer[token]) {
        n := 1;
      } else {
        n := Cspn(token, delims, t);
      }
    }

    /** Writes the NUL behind the piece at `token`. */
    method Cut(delims: string) returns (s: string)
      requires delim == Some(delims) && tok.buffer[..] == orig
      requires tokptr.Some? && Ends(orig, token) && (CStr(orig, token) == [] ==> Ends(orig, token + 1))
      modifies this`tokoff, this`saveChar, tok.buffer
      ensures Stands(Src(), Where()) && OneHole(tok.buffer[..], Src(), Where())
      ensures Current() == Some(s)
      ensures var t := CStr(orig, token);
              && s == FirstOfText(t, delims)
              && Upcoming() == Split(CStr(orig, token + StepLen(t, delims)), delims) + Later(Src(), arg)
    {
      hide Stands, OneHole, Left, Later, Split, CStrAt, CStr, StepLen, FirstOfText, Strchr;
      ghost var src, c := Src(), Where();
      ghost var t := CStr(orig, token);
      assert CStrAt(tok.buffer[..], token, t);
      var n := Measure(delims, t);
      CutHere(src, c);
      tokoff := n;
      saveChar := tok.buffer[token + n];
      tok.buffer[token + n] := NUL;
      assert tok.buffer[..] == src.orig[token + n := NUL];
      assert Src() == src && Where() == c.(tokoff := n, saveChar := src.orig[token + n]);
      s := CommandReader.CString(tok.buffer, token, FirstOfText(t, delims));
    }

    method NextArgument(req: bool) returns (r: Step)
      requires Valid() && saveChar == NUL && peekPtr == None
      modifies this, tok.buffer
      ensures Valid() && peekPtr == None
      ensures Returned(old(Upcoming()), Upcoming(), Current(), req, r)
      ensures r.Token? || tok.buffer[..] == orig
    {
      hide GoodSource, Later, Split, CStr, CStrAt, PiecesAt, StepLen, FirstOfText;
      ghost var src, c := Src(), Where();
      LeftAtEnd(src, c);
      if arg >= |tok.argp| {
        LaterNone(src, c.arg);
        LaterNone(src, c.arg + 1);
        tokptr, tokoff, arg := None, 0, arg + 1;
        return if req then TooFew else End;
      }
      Enter(src, c);
      tokptr, token, tokoff := Some(tok.argp[arg]), tok.argp[arg], 0;
      arg := arg + 1;
      assert Src() == src;
      var s;
      if delim.Some? {
        FirstAt(orig, token, delim.value, Later(src, c.arg + 1));
        s := Cut(delim.value);
      } else {
        WholeAt(orig, token, Later(src, c.arg + 1));
        s := CommandReader.CString(tok.buffer, token, CStr(orig, token));
        LeftAtEnd(src, Where());
      }
      r := Token(s);
    }

    method NextPiece(ghost req: bool) returns (r: Step)
      requires Valid() && tokptr.Some? && saveChar != NUL && peekPtr == None
      modifies this, tok.buffer
      ensures Valid() && peekPtr == None
      ensures r.Token? && Returned(old(Upcoming()), Upcoming(), Current(), req, r)
    {
      hide GoodSource, Later, Split, Left, CStr, CStrAt, Ends, StepLen, FirstOfText;
      ghost var src, c := Src(), Where();
      Advance(src, c);
      tok.buffer[token + tokoff] := saveChar;
      assert tok.buffer[..] == orig;
      token := token + tokoff;
      FirstPiece(orig, token, delim.value, Later(src, arg));
      var s := Cut(delim.value);
      r := Token(s);
    }

    /** The text of the current token. */
    method TokenText() returns (s: string)
      requires Valid() && Current().Some?
      ensures s == Current().value
    {
      hide CStrAt, CStr;
      CurrentBytes(tok.buffer[..], Src(), Where());
      s := CommandReader.CString(tok.buffer, token, Current().value);
    }

    /** The first piece of the C string `a` at `off`; the copy of a NUL is empty. */
    method FirstOf(off: nat, delims: string, ghost a: string) returns (s: string)
      requires CStrAt(tok.buffer[..], off, a)
      ensures s == FirstOfText(a, delims)
    {
      assert tok.buffer[off..off + |a|] == a;
      assert a != [] ==> tok.buffer[off] == a[0] && a[0] in a;
      if Strchr(delims, tok.buffer[off]) {
        s := if tok.buffer[off] == NUL then [] else [tok.buffer[off]];
      } else {
        var n := Cspn(off, delims, a);
        s := tok.buffer[off..off + n];
      }
    }

    /** The first piece of `t`, whose first byte is saved and whose rest follows the hole. */
    method PieceBehindHole(delims: string, ghost t: string) returns (s: string)
      requires t != [] && t[0] == saveChar != NUL && CStrAt(tok.buffer[..], token + tokoff + 1, t[1..])
      ensures s == FirstOfText(t, delims)
    {
      var rest := token + tokoff + 1;
      if Strchr(delims, saveChar) {
        s := [saveChar];
      } else {
        hide CStrAt;
        var off := Cspn(rest, delims, t[1..]);
        CStrSlice(tok.buffer[..], rest, t[1..], off);
        s := [saveChar] + tok.buffer[rest..rest + off];
        RunBehind(t, delims);
        assert tok.buffer[rest..rest + off] == tok.buffer[..][rest..rest + off];
      }
    }

    /** imap4d_parsebuf_peek: what the next call of `next` returns; no token and no
        byte of the buffer changes. */
    method Peek() returns (r: Option<string>)
      requires Valid()
      modifies this`peekPtr
      ensures Valid()
      ensures r == if Upcoming() == [] then None else Some(Upcoming()[0])
    {
      hide GoodSource, Stands, OneHole, Left, Split, CStr, CStrAt, FirstOfText;
      if peekPtr.None? {
        NoToken(Src(), Where());
        if tokptr.None? || saveChar == NUL {
          NextFirst(Src(), Where());
          assert tok.buffer[..] == orig by { NoHole(tok.buffer[..], Src(), Where()); }
          if arg >= |tok.argp| {
            return None;
          }
          if delim.Some? {
            var s := FirstOf(tok.argp[arg], delim.value, CStr(orig, tok.argp[arg]));
            peekPtr := Some(s);
          } else {
            var s := CommandReader.CString(tok.buffer, tok.argp[arg], CStr(orig, tok.argp[arg]));
            peekPtr := Some(s);
          }
        } else {
          BehindHole(tok.buffer[..], Src(), Where());
          var s := PieceBehindHole(delim.value, CStr(orig, token + tokoff));
          peekPtr := Some(s);
        }
      }
      r := peekPtr;
    }

    /** imap4d_parsebuf_next: returns the next piece and restores the byte behind
        the one before. */
    method Next(req: bool) returns (r: Step)
      requires Valid()
      modifies this, tok.buffer
      ensures Valid() && peekPtr == None
      ensures Returned(old(Upcoming()), Upcoming(), Current(), req, r)
      ensures r.Token? || tok.buffer[..] == orig
    {
      hide GoodSource, Stands, OneHole, Left, CurrentPiece, Later;
      NoToken(Src(), Where());
      peekPtr := None;
      if tokptr.None? || saveChar == NUL {
        r := NextArgument(req);
      } else {
        r := NextPiece(req);
      }
    }
  }

  lemma CStrSlice(b: string, off: nat, s: string, n: nat)
    requires CStrAt(b, off, s) && n <= |s|
    ensures off + n <= |b| && b[off..off + n] == s[..n]
  {
    assert b[off..off + |s|] == s;
    assert b[off..off + n] == b[off..off + |s|][..n];
  }

  /** A run that starts with a character outside the set. */
  lemma RunBehind(t: string, delims: string)
    requires t != [] && t[0] !in delims
    ensures FirstOfText(t, delims) == [t[0]] + t[1..][..RunSpan(t[1..], delims)]
  {
    var n := RunSpan(t[1..], delims);
    assert RunSpan(t, delims) == 1 + n && t[..1 + n] == [t[0]] + t[1..][..n];
  }

  lemma WholeAt(b: string, off: nat, later: seq<string>)
    ensures var ps := PiecesAt(b, off, None) + later;
            ps != [] && ps[0] == CStr(b, off) && ps[1..] == later
  {
    hide CStr;
  }

  /** The current token is a C string in the buffer as it is. */
  lemma CurrentBytes(now: string, src: Source, c: Cursor)
    requires Stands(src, c) && OneHole(now, src, c) && c.tokptr.Some?
    ensures CStrAt(now, c.token, CurrentPiece(src, c).value)
  {
    hide CStrAt, CStr, StepLen, FirstOfText;
    if src.delim.Some? {
      HoleHere(src, c);
      assert c.saveChar == NUL ==> src.orig[c.token + c.tokoff := NUL] == src.orig;
    }
  }

  lemma HoleHere(src: Source, c: Cursor)
    requires Stands(src, c) && c.tokptr.Some? && src.delim.Some?
    ensures c.token + c.tokoff < |src.orig| && c.saveChar == src.orig[c.token + c.tokoff]
    ensures CStrAt(src.orig[c.token + c.tokoff := NUL], c.token, FirstOfText(Tail(src, c), src.delim.value))
  {
    hide CStrAt, CStr, FirstOfText;
    CStrEmpty(src.orig, c.token + c.tokoff);
    HoleAt(src.orig, c.token, src.delim.value);
  }

  /** The bytes behind the hole, and what they say about the piece that starts there. */
  lemma BehindHole(now: string, src: Source, c: Cursor)
    requires Stands(src, c) && c.tokptr.Some? && c.saveChar != NUL
    requires OneHole(now, src, c)
    ensures src.delim.Some?
    ensures var t := CStr(src.orig, c.token + c.tokoff);
            && t != [] && t[0] == c.saveChar && CStrAt(now, c.token + c.tokoff + 1, t[1..])
            && Left(src, c) != [] && Left(src, c)[0] == FirstOfText(t, src.delim.value)
  {
    hide Split, Later, CStrAt, Left, CStr, StepLen, FirstOfText;
    Advance(src, c);
    var off := c.token + c.tokoff;
    FirstPiece(src.orig, off, src.delim.value, Later(src, c.arg));
    RestAt(now, src.orig, off, CStr(src.orig, off));
  }

  /** Overwriting the first byte of a C string leaves a C string behind it. */
  lemma RestAt(now: string, orig: string, off: nat, t: string)
    requires CStrAt(orig, off, t) && t != []
    requires now == orig[off := NUL]
    ensures t[0] == orig[off] && CStrAt(now, off + 1, t[1..])
  {
    assert orig[off..off + |t|] == t;
    assert now[off + 1..off + |t|] == t[1..];
  }

  /** The first piece of the next argument is the next piece at an argument's end. */
  lemma NextFirst(src: Source, c: Cursor)
    requires GoodSource(src) && Stands(src, c) && c.saveChar == NUL
    ensures c.arg >= |src.argp| ==> Left(src, c) == []
    ensures c.arg < |src.argp| ==>
              var a := CStr(src.orig, src.argp[c.arg]);
              && CStrAt(src.orig, src.argp[c.arg], a) && Left(src, c) != []
              && Left(src, c)[0] == if src.delim.None? then a else FirstOfText(a, src.delim.value)
  {
    hide CStr, CStrAt, PiecesAt, Left, Later, Stands, FirstOfText, StepLen, GoodSource;
    LeftAtEnd(src, c);
    if c.arg < |src.argp| {
      Enter(src, c);
      var off := src.argp[c.arg];
      if src.delim.Some? {
        FirstAt(src.orig, off, src.delim.value, Later(src, c.arg + 1));
      } else {
        WholeAt(src.orig, off, Later(src, c.arg + 1));
      }
    } else {
      LaterNone(src, c.arg);
    }
  }

  /** What `next` does to the pieces: it takes the first, if there is one. */
  ghost predicate Returned(before: seq<string>, after: seq<string>, current: Option<string>, req: bool, r: Step) {
    if before == [] then after == [] && current == None && r == (if req then TooFew else End)
    else r == Token(before[0]) && current == Some(before[0]) && after == before[1..]
  }

  lemma NoHole(now: string, src: Source, c: Cursor)
    requires OneHole(now, src, c) && c.saveChar == NUL
    ensures now == src.orig
  {
  }

  lemma NoToken(src: Source, c: Cursor)
    requires Stands(src, c)
    ensures c.tokptr.None? ==> c.saveChar == NUL
  {
  }

  lemma LaterNone(src: Source, arg: nat)
    requires arg >= |src.argp|
    ensures Later(src, arg) == []
  {
  }
}
