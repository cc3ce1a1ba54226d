/** The recursive-descent parser of SEARCH as the source runs it: the current token,
    the argument number and the token buffer are fields, and a macro key swaps a token
    buffer of its own in and out. */
module SearchParser {
  import opened Common
  import opened Lexer
  import opened TokBuf
  import opened Search
  import opened SearchEval
  import opened SearchTrees
  import CommandReader
  import SearchRoundTrip

  const MAX_NODE_ARGS: nat := 2

  /** imap4d_tokbuf_getarg, and the C string it points to */
  method GetArg(tok: TokBuf, n: nat) returns (t: Option<string>)
    requires tok.Valid()
    ensures t == if n < |tok.args| then Some(tok.args[n]) else None
  {
    if n >= |tok.argp| {
      return None;
    }
    var s := CommandReader.CString(tok.buffer, tok.argp[n], tok.args[n]);
    t := Some(s);
  }

  /** The condition of a token, by the first name in the table that fits. */
  method LookupCond(t: string) returns (r: Option<Cond>)
    ensures r == FindCond(t, AllConds())
  {
    hide AllConds, CondName;
    var table := AllConds();
    var i := 0;
    while i < |table| && !EqNoCase(CondName(table[i]), t)
      invariant i <= |table| && FindCond(t, table) == FindCond(t, table[i..])
    {
      i := i + 1;
    }
    r := if i < |table| then Some(table[i]) else None;
  }

  method LookupMacro(t: string) returns (r: Option<Macro>)
    ensures r == FindMacro(t, AllMacros())
  {
    hide AllMacros, MacroName;
    var table := AllMacros();
    var i := 0;
    while i < |table| && !EqNoCase(MacroName(table[i]), t)
      invariant i <= |table| && FindMacro(t, table) == FindMacro(t, table[i..])
    {
      i := i + 1;
    }
    r := if i < |table| then Some(table[i]) else None;
  }

  /** What a parsing method leaves behind, against the parser function: the node, the
      tokens not consumed and the error message. */
  ghost predicate Outcome(p: Parse, node: Option<Node>, rest: seq<string>,
                          before: Option<string>, after: Option<string>)
  {
    match p
    case Tree(n, r) => node == Some(n) && rest == r && after == before
    case Fail(mesg) => node == None && after == (if mesg.Some? then mesg else before)
    case Crash => false
  }

  /** Arguments already taken, before the outcome for the others. */
  ghost function After(args: seq<Node>, r: ArgParse): ArgParse {
    match r
    case Args(more, rest) => Args(args + more, rest)
    case ArgFail(e) => ArgFail(e)
  }

  // ---------- the parser function, one kind of key at a time ----------

  lemma OpenKey(lib: Library, ts: seq<string>)
    requires ts != [] && KeywordOf(ts[0]) == KOpen
    ensures |ts| == 1 ==> ParseKey(lib, ts) == Fail(Some("Unexpected end of statement"))
    ensures |ts| > 1 ==>
              ParseKey(lib, ts) == match ParseList(lib, ts[1..], None)
                                   case Tree(node, rest) =>
                                     if rest == [] then Crash
                                     else if rest[0] != ")" then Fail(Some("Unbalanced parenthesis"))
                                     else Tree(node, rest[1..])
                                   case other => other
    ensures MaxRank(ts[1..]) <= MaxRank(ts)
  {
    hide KeywordOf, Rank, ParseList;
  }

  lemma OrKey(lib: Library, ts: seq<string>)
    requires ts != [] && KeywordOf(ts[0]) == KOr
    ensures |ts| == 1 ==> ParseKey(lib, ts) == Fail(Some("Unexpected end of statement"))
    ensures |ts| > 1 ==> ParseKey(lib, ts) == OrOutcome(lib, ts)
    ensures MaxRank(ts[1..]) <= MaxRank(ts)
  {
    hide KeywordOf, Rank;
  }

  ghost function OrOutcome(lib: Library, ts: seq<string>): Parse
    requires |ts| > 1
  {
    match ParseKey(lib, ts[1..])
    case Tree(l, rest) =>
      if rest == [] then Fail(Some("Too few args"))
      else
        (match ParseKey(lib, rest)
         case Tree(r, rest') => Tree(Or(l, r), rest')
         case other => other)
    case other => other
  }

  lemma MacroKey(lib: Library, ts: seq<string>, m: Macro)
    requires ts != [] && KeywordOf(ts[0]) == KMacro(m)
    ensures ParseKey(lib, ts) == match ParseList(lib, MacroTokens(m), None)
                                 case Tree(node, _) => Tree(node, ts[1..])
                                 case _ => Crash
    ensures MaxRank(MacroTokens(m)) < MaxRank(ts)
  {
    hide KeywordOf, ParseList, MacroTokens, MacroRank;
    MacroTokensRank(m);
    TailRank(ts);
  }

  lemma SimpleKey(lib: Library, ts: seq<string>)
    requires ts != [] && (KeywordOf(ts[0]).KCond? || KeywordOf(ts[0]) == KOther)
    ensures ParseKey(lib, ts) == ParseSimple(lib, ts)
  {
    hide KeywordOf, ParseSimple;
  }

  /** What the table lookups say of a token that is none of the four words. */
  ghost predicate LookedUp(t: string) {
    && KeywordOf(t) !in {KOpen, KAll, KNot, KOr}
    && (match FindMacro(t, AllMacros())
        case Some(m) => KeywordOf(t) == KMacro(m)
        case None =>
          match FindCond(t, AllConds())
          case Some(c) => KeywordOf(t) == KCond(c)
          case None => KeywordOf(t) == KOther)
  }

  lemma Lookup(t: string)
    requires t != "(" && !EqNoCase(t, "ALL") && !EqNoCase(t, "NOT") && !EqNoCase(t, "OR")
    ensures LookedUp(t)
  {
    hide FindMacro, FindCond, AllMacros, AllConds;
  }

  lemma Words(t: string)
    ensures t == "(" ==> KeywordOf(t) == KOpen
    ensures t != "(" && EqNoCase(t, "ALL") ==> KeywordOf(t) == KAll
    ensures t != "(" && !EqNoCase(t, "ALL") && EqNoCase(t, "NOT") ==> KeywordOf(t) == KNot
    ensures t != "(" && !EqNoCase(t, "ALL") && !EqNoCase(t, "NOT") && EqNoCase(t, "OR") ==> KeywordOf(t) == KOr
  {
    hide FindMacro, FindCond, AllMacros, AllConds, EqNoCase;
  }

  lemma ArgStep(lib: Library, types: string, ts: seq<string>)
    requires forall i :: 0 <= i < |types| ==> types[i] == 's' || types[i] == 'n' || types[i] == 'd' || types[i] == 'u'
    requires types != []
    ensures ParseArgs(lib, types, ts) ==
            if ts == [] then ArgFail("Not enough arguments for criterion")
            else match ParseArg(lib, types[0], ts[0])
                 case None => ArgFail(ArgError(types[0]))
                 case Some(v) => After([ValueNode(v)], ParseArgs(lib, types[1..], ts[1..]))
  {
    hide ParseArg, ArgError;
  }

  lemma ArgsEnd(lib: Library, types: string, ts: seq<string>)
    requires types == []
    ensures ParseArgs(lib, types, ts) == Args([], ts)
  {
  }

  lemma AfterMore(args: seq<Node>, a: Node, r: ArgParse)
    ensures After(args + [a], r) == After(args, After([a], r))
  {
    if r.Args? {
      assert args + [a] + r.args == args + ([a] + r.args);
    }
  }

  class SearchBuf {
    const lib: Library
    var tok: TokBuf
    var arg: nat
    var token: Option<string>
    var err_mesg: Option<string>

    constructor (lib: Library, tok: TokBuf, arg: nat)
      requires tok.Valid()
      ensures Valid() && this.lib == lib && this.tok == tok && err_mesg == None
      ensures Rest() == if arg < |tok.args| then tok.args[arg..] else []
    {
      this.lib, this.tok, this.arg := lib, tok, arg;
      token, err_mesg := None, None;
      new;
      var t := GetArg(tok, arg);
      this.token, this.arg := t, arg + 1;
    }

    ghost predicate Valid()
      reads this, tok, tok.buffer
    {
      && tok.Valid()
      && arg > 0
      && token == if arg <= |tok.args| then Some(tok.args[arg - 1]) else None
    }

    /** The tokens from the current one on. */
    ghost function Rest(): seq<string>
      requires arg > 0
      reads this, tok
    {
      if arg <= |tok.args| then tok.args[arg - 1..] else []
    }

    /** parse_gettoken */
    method GetToken(req: bool) returns (ok: bool)
      requires tok.Valid()
      modifies this`arg, this`token, this`err_mesg
      ensures ok <==> !(req && old(arg) >= |tok.args|)
      ensures ok ==> Valid() && arg == old(arg) + 1 && err_mesg == old(err_mesg)
      ensures !ok ==> arg == old(arg) && token == old(token) && err_mesg == Some("Unexpected end of statement")
    {
      if req && arg >= |tok.argp| {
        err_mesg := Some("Unexpected end of statement");
        return false;
      }
      var t := GetArg(tok, arg);
      token, arg := t, arg + 1;
      return true;
    }

    /** A step past the current token. */
    method Step(req: bool) returns (ok: bool)
      requires Valid() && token.Some?
      modifies this`arg, this`token, this`err_mesg
      ensures Valid()
      ensures ok <==> !(req && |old(Rest())| == 1)
      ensures ok ==> Rest() == old(Rest())[1..] && err_mesg == old(err_mesg)
      ensures !ok ==> err_mesg == Some("Unexpected end of statement")
    {
      ok := GetToken(req);
    }

    /** The words before the keys; a false result stands for a character set that the
        library does not have. */
    method SkipCharset() returns (known: bool)
      requires Valid() && !WordMissing(Rest())
      modifies this`arg, this`token, this`err_mesg
      ensures Valid() && err_mesg == old(err_mesg)
      ensures known == CharsetKnown(lib, old(Rest()))
      ensures known ==> Rest() == KeyTokens(old(Rest()))
    {
      hide Holds, EqNoCase;
      ghost var ts := Rest();
      known := true;
      if EqNoCase(token.value, "CHARSET") {
        var _ := Step(false);
        assert token.Some? && token.value == ts[1];
        known := EqNoCase(token.value, "US-ASCII") || lib.charset(token.value);
        if known {
          var _ := Step(false);
          assert Rest() == ts[1..][1..] == ts[2..];
        }
      }
    }

    /** Compiles the keys. */
    method CompileKeys() returns (s: Statement)
      requires Valid() && err_mesg == None && Compile(lib, Rest()) != Crash
      modifies this
      ensures s == Compiled(Compile(lib, old(Rest())))
    {
      hide Holds, ParseList;
      var tree := ParseSearchKeyList();
      if tree.None? {
        s := Bad(if err_mesg.Some? then err_mesg.value else "Parse error");
      } else if token.Some? {
        s := Bad("Junk at the end of statement");
      } else {
        s := Ready(tree.value);
      }
    }

    /** parse_search_key_list */
    method ParseSearchKeyList() returns (node: Option<Node>)
      requires Valid() && !ParseList(lib, Rest(), None).Crash?
      modifies this
      ensures Valid() && tok == old(tok)
      ensures Outcome(ParseList(lib, old(Rest()), None), node, Rest(), old(err_mesg), err_mesg)
      decreases MaxRank(Rest()), |Rest()|, 1, 0
    {
      hide Holds, ParseKey, MaxRank;
      var leftarg: Option<Node> := None;
      ghost var all := ParseList(lib, Rest(), None);
      while token.Some? && C0(token.value) != ')'
        invariant Valid() && tok == old(tok) && err_mesg == old(err_mesg)
        invariant all == ParseList(lib, Rest(), leftarg)
        invariant |Rest()| <= |old(Rest())| && MaxRank(Rest()) <= MaxRank(old(Rest()))
        decreases |Rest()|
      {
        var rightarg := ParseSearchKey();
        if rightarg.None? {
          return None;
        }
        leftarg := Some(Joined(leftarg, rightarg.value));
      }
      return leftarg;
    }

    /** parse_search_key */
    method ParseSearchKey() returns (node: Option<Node>)
      requires Valid() && token.Some? && !ParseKey(lib, Rest()).Crash?
      modifies this
      ensures Valid() && tok == old(tok)
      ensures Outcome(ParseKey(lib, old(Rest())), node, Rest(), old(err_mesg), err_mesg)
      decreases MaxRank(Rest()), |Rest()|, 0, 2
    {
      hide Holds, ParseKey, MaxRank, KeywordOf, LookedUp;
      Words(token.value);
      if token.value == "(" {
        node := ParseGroup();
      } else if EqNoCase(token.value, "ALL") {
        node := ParseAll();
      } else if EqNoCase(token.value, "NOT") {
        node := ParseNot();
      } else if EqNoCase(token.value, "OR") {
        node := ParseOr();
      } else {
        Lookup(token.value);
        node := ParseEquivKey();
      }
    }

    method ParseAll() returns (node: Option<Node>)
      requires Valid() && token.Some? && KeywordOf(token.value) == KAll
      modifies this
      ensures Valid() && tok == old(tok)
      ensures Outcome(ParseKey(lib, old(Rest())), node, Rest(), old(err_mesg), err_mesg)
    {
      hide Holds, KeywordOf;
      var _ := Step(false);
      node := Some(ValueNode(Number(1)));
    }

    method ParseGroup() returns (node: Option<Node>)
      requires Valid() && token.Some? && KeywordOf(token.value) == KOpen && !ParseKey(lib, Rest()).Crash?
      modifies this
      ensures Valid() && tok == old(tok)
      ensures Outcome(ParseKey(lib, old(Rest())), node, Rest(), old(err_mesg), err_mesg)
      decreases MaxRank(Rest()), |Rest()|, 0, 1
    {
      hide Holds, KeywordOf, ParseList, ParseKey, MaxRank;
      ghost var ts := Rest();
      OpenKey(lib, ts);
      var ok := Step(true);
      if !ok {
        return None;
      }
      ghost var p := ParseList(lib, ts[1..], None);
      node := ParseSearchKeyList();
      if node.None? {
        assert ParseKey(lib, ts) == p;
        return;
      }
      assert p.rest == Rest();
      if token != Some(")") {
        assert ParseKey(lib, ts) == Fail(Some("Unbalanced parenthesis"));
        err_mesg := Some("Unbalanced parenthesis");
        return None;
      }
      assert ParseKey(lib, ts) == Tree(node.value, Rest()[1..]);
      ok := Step(false);
    }

    method ParseNot() returns (node: Option<Node>)
      requires Valid() && token.Some? && KeywordOf(token.value) == KNot && !ParseKey(lib, Rest()).Crash?
      modifies this
      ensures Valid() && tok == old(tok)
      ensures Outcome(ParseKey(lib, old(Rest())), node, Rest(), old(err_mesg), err_mesg)
      decreases MaxRank(Rest()), |Rest()|, 0, 1
    {
      hide Holds, KeywordOf, ParseList, Rank;
      var ok := Step(true);
      if !ok {
        return None;
      }
      var np := ParseSearchKey();
      if np.None? {
        return None;
      }
      node := Some(Not(np.value));
    }

    method ParseOr() returns (node: Option<Node>)
      requires Valid() && token.Some? && KeywordOf(token.value) == KOr && !ParseKey(lib, Rest()).Crash?
      modifies this
      ensures Valid() && tok == old(tok)
      ensures Outcome(ParseKey(lib, old(Rest())), node, Rest(), old(err_mesg), err_mesg)
      decreases MaxRank(Rest()), |Rest()|, 0, 1
    {
      hide Holds, KeywordOf, ParseList, ParseKey, MaxRank;
      ghost var ts := Rest();
      OrKey(lib, ts);
      var ok := Step(true);
      if !ok {
        return None;
      }
      ghost var p := ParseKey(lib, ts[1..]);
      var leftarg := ParseSearchKey();
      if leftarg.None? {
        assert ParseKey(lib, ts) == p;
        return None;
      }
      assert p == Tree(leftarg.value, Rest());
      if token.None? {
        assert ParseKey(lib, ts) == Fail(Some("Too few args"));
        err_mesg := Some("Too few args");
        return None;
      }
      ghost var p' := ParseKey(lib, Rest());
      var rightarg := ParseSearchKey();
      if rightarg.None? {
        assert ParseKey(lib, ts) == p';
        return None;
      }
      assert ParseKey(lib, ts) == Tree(Or(leftarg.value, rightarg.value), Rest());
      node := Some(Or(leftarg.value, rightarg.value));
    }

    /** parse_equiv_key: the expansion is tokenized into a buffer of its own, parsed
        there, and the outer buffer is put back */
    method ParseEquivKey() returns (node: Option<Node>)
      requires Valid() && token.Some? && !ParseKey(lib, Rest()).Crash?
      requires LookedUp(token.value)
      modifies this
      ensures Valid() && tok == old(tok)
      ensures Outcome(ParseKey(lib, old(Rest())), node, Rest(), old(err_mesg), err_mesg)
      decreases MaxRank(Rest()), |Rest()|, 0, 1
    {
      hide Holds, KeywordOf, ParseList, ParseKey, MaxRank, FindMacro, FindCond,
        AllMacros, AllConds, ParseSimple, MacroTokens;
      var m := LookupMacro(token.value);
      if m.None? {
        SimpleKey(lib, Rest());
        node := ParseSimpleKey();
        return;
      }
      MacroKey(lib, Rest(), m.value);
      var save_arg, save_tok := arg, tok;
      SwapIn(m.value);
      node := ParseSearchKeyList();
      assert node.Some?;
      arg, tok := save_arg, save_tok;
      var _ := GetToken(false);
    }

    /** parse_simple_key */
    method ParseSimpleKey() returns (node: Option<Node>)
      requires Valid() && token.Some?
      requires LookedUp(token.value) && !KeywordOf(token.value).KMacro?
      modifies this
      ensures Valid() && tok == old(tok)
      ensures Outcome(ParseSimple(lib, old(Rest())), node, Rest(), old(err_mesg), err_mesg)
    {
      hide Holds, KeywordOf, FindMacro, FindCond, AllMacros, AllConds, ParseArgs, ArgTypes;
      var condp := LookupCond(token.value);
      if condp.None? {
        var name := token.value;
        match lib.msgset(name) {
          case SetOk =>
            var _ := Step(false);
            node := Some(Call(KeyMsgset, [ValueNode(Msgset(name))]));
          case SetSyntax =>
            err_mesg := Some("Unknown search criterion");
            node := None;
          case SetNoent =>
            var _ := Step(false);
            node := Some(False);
        }
        return;
      }
      var _ := Step(false);
      var args := ParseArguments(ArgTypes(condp.value));
      if args.None? {
        return None;
      }
      node := Some(Call(KeyCond(condp.value), args.value));
    }

    /** One argument of the type that a letter of the table asks for. */
    method ParseArgument(ty: char) returns (v: Option<Value>)
      requires ty == 's' || ty == 'n' || ty == 'd' || ty == 'u'
      requires Valid()
      modifies this
      ensures Valid() && tok == old(tok)
      ensures old(Rest()) == [] ==> v == None && err_mesg == Some("Not enough arguments for criterion")
      ensures old(Rest()) != [] ==>
                && v == ParseArg(lib, ty, old(Rest())[0])
                && (v.Some? ==> Rest() == old(Rest())[1..] && err_mesg == old(err_mesg))
                && (v.None? ==> err_mesg == Some(ArgError(ty)))
    {
      hide Holds, ParseArg, ArgError;
      if token.None? {
        err_mesg := Some("Not enough arguments for criterion");
        return None;
      }
      v := ParseArg(lib, ty, token.value);
      if v.None? {
        err_mesg := Some(ArgError(ty));
      } else {
        var _ := Step(false);
      }
    }

    /** The loop over the argument types of a condition. */
    method ParseArguments(types: string) returns (r: Option<seq<Node>>)
      requires forall i :: 0 <= i < |types| ==> types[i] == 's' || types[i] == 'n' || types[i] == 'd' || types[i] == 'u'
      requires Valid() && |types| <= MAX_NODE_ARGS
      modifies this
      ensures Valid() && tok == old(tok)
      ensures var p := ParseArgs(lib, types, old(Rest()));
              if p.Args? then r == Some(p.args) && Rest() == p.rest && err_mesg == old(err_mesg)
              else r == None && err_mesg == Some(p.mesg)
    {
      hide Holds, ParseArg, ArgError, ParseArgs;
      var args: seq<Node> := [];
      ghost var all := ParseArgs(lib, types, Rest());
      var t := 0;
      while t < |types|
        invariant t <= |types| && |args| == t
        invariant Valid() && tok == old(tok) && err_mesg == old(err_mesg)
        invariant all == After(args, ParseArgs(lib, types[t..], Rest()))
      {
        assert |args| < MAX_NODE_ARGS;
        ghost var ts := Rest();
        ArgStep(lib, types[t..], ts);
        var v := ParseArgument(types[t]);
        if v.None? {
          assert all == ArgFail(err_mesg.value);
          return None;
        }
        assert types[t..][1..] == types[t + 1..];
        AfterMore(args, ValueNode(v.value), ParseArgs(lib, types[t + 1..], ts[1..]));
        args := args + [ValueNode(v.value)];
        t := t + 1;
      }
      ArgsEnd(lib, types[t..], Rest());
      assert all == Args(args, Rest());
      r := Some(args);
    }

    method SwapIn(m: Macro)
      requires Valid()
      modifies this
      ensures Valid() && Rest() == MacroTokens(m) && err_mesg == old(err_mesg)
      ensures fresh(tok) && fresh(tok.buffer)
    {
      SearchRoundTrip.MacroLexes(m);
      MacroTextPlain(m);
      tok := new TokBuf.FromString(MacroText(m));
      arg := 0;
      var _ := GetToken(false);
    }
  }

  // ---------- the command ----------

  /** The arguments of the command from the first key, or the character set, on. */
  ghost function StatementOf(lib: Library, args: seq<string>): seq<string> {
    var first := if lib.isuid then 3 else 2;
    if first < |args| then args[first..] else []
  }

  /** The answer to a SEARCH: the numbers or UIDs reported and the text of the
      completion. */
  ghost predicate Answered(lib: Library, ts: seq<string>, mailbox: seq<Option<Message>>,
                           numbers: Option<seq<nat>>, text: string)
    requires Search0(lib, ts) != Abort
  {
    match Search0(lib, ts)
    case Bad(mesg) => numbers == None && text == mesg
    case No(mesg) => numbers == None && text == mesg
    case Ready(tree) =>
      var chosen := Selected(lib, tree, mailbox, |mailbox|);
      && text == "Completed" && numbers.Some? && |numbers.value| == |chosen|
      && forall k :: 0 <= k < |chosen| ==> numbers.value[k] == Reported(mailbox, chosen[k], lib.isuid)
  }

  /** imap4d_search0, from the token buffer to the numbers sent */
  method ImapSearch0(lib: Library, tok: TokBuf, mailbox: seq<Option<Message>>)
    returns (numbers: Option<seq<nat>>, text: string)
    requires tok.Valid() && Search0(lib, StatementOf(lib, tok.args)) != Abort
    requires forall i :: 0 <= i < |mailbox| && mailbox[i].Some? ==> mailbox[i].value.msgno == i + 1
    ensures Answered(lib, StatementOf(lib, tok.args), mailbox, numbers, text)
  {
    hide Holds, EqNoCase, Compile, WellFormed, Meaning, Selected;
    ghost var ts := StatementOf(lib, tok.args);
    var pb := new SearchBuf(lib, tok, if lib.isuid then 3 else 2);
    assert pb.Rest() == ts;
    numbers := None;
    var known := pb.SkipCharset();
    if !known {
      text := "[BADCHARSET] Charset not supported";
      return;
    }
    var statement := pb.CompileKeys();
    if statement.Bad? {
      text := statement.text;
      return;
    }
    ReadyTree(lib, KeyTokens(ts));
    var out := DoSearch(lib, statement.tree, mailbox);
    numbers, text := Some(out), "Completed";
  }

  lemma ReadyTree(lib: Library, keys: seq<string>)
    requires Compiled(Compile(lib, keys)).Ready?
    ensures WellFormed(lib, Compiled(Compile(lib, keys)).tree)
  {
    hide ParseList, WellFormed;
    ListWellFormed(lib, keys, None);
  }

  lemma MacroTextPlain(m: Macro)
    ensures NulFree(MacroText(m)) && LateGap(MacroText(m)) == None
  {
    hide LateGap, MacroText;
    MacroLetters(m);
    NoLateGap(MacroText(m));
  }

  /** Neither a NUL nor a quote. */
  predicate Unquoted(s: string) {
    forall i :: 0 <= i < |s| ==> s[i] != NUL && s[i] != '"'
  }

  lemma TokensUnquoted()
    ensures Unquoted("KEYWORD") && Unquoted("NOT") && Unquoted("RECENT") && Unquoted(" ") && Unquoted("(RECENT UNSEEN)")
    ensures Unquoted("\\Answered") && Unquoted("\\Deleted") && Unquoted("\\Draft") && Unquoted("\\Flagged")
    ensures Unquoted("\\Recent") && Unquoted("\\Seen")
  {
  }

  lemma UnquotedAppend(a: string, b: string)
    requires Unquoted(a) && Unquoted(b)
    ensures Unquoted(a + b)
  {
  }

  lemma MacroLetters(m: Macro)
    ensures Unquoted(MacroText(m))
  {
    hide Unquoted;
    TokensUnquoted();
    if m != NEW {
      hide MacroText;
      SearchRoundTrip.MacroSpelling(m);
      var ts := MacroTokens(m);
      UnquotedAppend(ts[0], " ");
      UnquotedAppend(ts[0] + " ", ts[1]);
      if |ts| == 3 {
        UnquotedAppend(ts[1], " ");
        UnquotedAppend(ts[1] + " ", ts[2]);
        UnquotedAppend(ts[0] + " ", ts[1] + " " + ts[2]);
      }
    }
  }
}
