/** Queries as the client composes them, what they print to and what they mean; the
    parser inverts the printer, and a macro key is its expansion. */
module SearchRoundTrip {
  import opened Common
  import opened Lexer
  import opened Search

  /** A search query.  `word` and `name` carry the spelling the client chose. */
  datatype Query =
    | QAll(word: string)
    | QNot(word: string, q: Query)
    | QOr(word: string, l: Query, r: Query)
    | QGroup(keys: seq<Query>)
    | QMacro(m: Macro, name: string)
    | QCond(c: Cond, name: string, args: seq<string>)
    | QSet(text: string)

  function TokensOf(q: Query): seq<string> {
    match q
    case QAll(word) => [word]
    case QNot(word, p) => [word] + TokensOf(p)
    case QOr(word, l, r) => [word] + TokensOf(l) + TokensOf(r)
    case QGroup(keys) => ["("] + TokensOfAll(keys) + [")"]
    case QMacro(_, name) => [name]
    case QCond(_, name, args) => [name] + args
    case QSet(text) => [text]
  }

  function TokensOfAll(keys: seq<Query>): seq<string> {
    if keys == [] then [] else TokensOf(keys[0]) + TokensOfAll(keys[1..])
  }

  /** The expansion of a macro as a query. */
  function Expansion(m: Macro): Query
    requires m != UNKEYWORD
  {
    match m
    case NEW => QGroup([QMacro(RECENT, "RECENT"), QMacro(UNSEEN, "UNSEEN")])
    case OLD => QNot("NOT", QMacro(RECENT, "RECENT"))
    case UNANSWERED => QNot("NOT", Flag("\\Answered"))
    case UNDELETED => QNot("NOT", Flag("\\Deleted"))
    case UNDRAFT => QNot("NOT", Flag("\\Draft"))
    case UNFLAGGED => QNot("NOT", Flag("\\Flagged"))
    case UNSEEN => QNot("NOT", Flag("\\Seen"))
    case ANSWERED => Flag("\\Answered")
    case DELETED => Flag("\\Deleted")
    case DRAFT => Flag("\\Draft")
    case FLAGGED => Flag("\\Flagged")
    case RECENT => Flag("\\Recent")
    case SEEN => Flag("\\Seen")
  }

  function Flag(name: string): Query {
    QCond(KEYWORD, "KEYWORD", [name])
  }

  /** How deep the macros of a query nest. */
  function Depth(q: Query): nat {
    match q
    case QNot(_, p) => Depth(p)
    case QOr(_, l, r) => if Depth(l) > Depth(r) then Depth(l) else Depth(r)
    case QGroup(keys) => DepthAll(keys)
    case QMacro(m, _) => MacroRank(m)
    case _ => 0
  }

  function DepthAll(keys: seq<Query>): nat {
    if keys == [] then 0
    else if Depth(keys[0]) > DepthAll(keys[1..]) then Depth(keys[0]) else DepthAll(keys[1..])
  }

  lemma ExpansionDepth(m: Macro)
    requires m != UNKEYWORD
    ensures Depth(Expansion(m)) < MacroRank(m)
  {
    if m == NEW {
      var ks := Expansion(NEW).keys;
      assert ks[1..] == [QMacro(UNSEEN, "UNSEEN")] && ks[1..][1..] == [];
    }
  }

  /** What the library and the tables accept, at every key. */
  predicate Good(lib: Library, q: Query) {
    match q
    case QAll(word) => EqNoCase(word, "ALL")
    case QNot(word, p) => EqNoCase(word, "NOT") && Good(lib, p)
    case QOr(word, l, r) => EqNoCase(word, "OR") && Good(lib, l) && Good(lib, r)
    case QGroup(keys) => keys != [] && GoodAll(lib, keys)
    case QMacro(m, name) => m != UNKEYWORD && EqNoCase(name, MacroName(m))
    case QCond(c, name, args) => EqNoCase(name, CondName(c)) && GoodArgs(lib, ArgTypes(c), args)
    case QSet(text) => KeywordOf(text) == KOther && C0(text) != ')' && lib.msgset(text) != SetSyntax
  }

  predicate GoodAll(lib: Library, keys: seq<Query>) {
    keys == [] || (Good(lib, keys[0]) && GoodAll(lib, keys[1..]))
  }

  predicate GoodArgs(lib: Library, types: string, args: seq<string>)
    requires forall i :: 0 <= i < |types| ==> types[i] == 's' || types[i] == 'n' || types[i] == 'd' || types[i] == 'u'
  {
    |args| == |types| && forall i :: 0 <= i < |types| ==> ParseArg(lib, types[i], args[i]).Some?
  }

  function BuildArgs(lib: Library, types: string, args: seq<string>): seq<Node>
    requires forall i :: 0 <= i < |types| ==> types[i] == 's' || types[i] == 'n' || types[i] == 'd' || types[i] == 'u'
    requires GoodArgs(lib, types, args)
  {
    seq(|args|, i requires 0 <= i < |args| => ValueNode(ParseArg(lib, types[i], args[i]).value))
  }

  lemma GoodExpansion(lib: Library, m: Macro)
    requires m != UNKEYWORD
    ensures Good(lib, Expansion(m))
  {
    if m == NEW {
      var ks := Expansion(NEW).keys;
      assert ks[1..] == [QMacro(UNSEEN, "UNSEEN")] && ks[1..][1..] == [];
      assert Good(lib, ks[0]) && Good(lib, ks[1]) && GoodAll(lib, ks[1..]) && GoodAll(lib, ks);
    }
  }

  /** The tree of a query: a list of keys is a left-nested AND, and a macro is the
      tree of its expansion. */
  function Build(lib: Library, q: Query): Node
    requires Good(lib, q)
    decreases Depth(q), q, 0
  {
    match q
    case QAll(_) => ValueNode(Number(1))
    case QNot(_, p) => Not(Build(lib, p))
    case QOr(_, l, r) => Or(Build(lib, l), Build(lib, r))
    case QGroup(keys) =>
      assert GoodAll(lib, keys) && DepthAll(keys) == Depth(q);
      BuildAll(lib, keys[1..], Build(lib, keys[0]))
    case QMacro(m, _) =>
      var e := Expansion(m);
      assert Depth(e) < Depth(q) by { ExpansionDepth(m); }
      assert Good(lib, e) by { GoodExpansion(lib, m); }
      Build(lib, e)
    case QCond(c, _, args) => Call(KeyCond(c), BuildArgs(lib, ArgTypes(c), args))
    case QSet(text) => if lib.msgset(text) == SetOk then Call(KeyMsgset, [ValueNode(Msgset(text))]) else False
  }

  function BuildAll(lib: Library, keys: seq<Query>, left: Node): Node
    requires GoodAll(lib, keys)
    decreases DepthAll(keys), keys, 1
  {
    if keys == [] then left else BuildAll(lib, keys[1..], And(left, Build(lib, keys[0])))
  }

  // ---------- one step of the parser on each kind of query ----------

  lemma StepAll(lib: Library, word: string, rest: seq<string>)
    requires EqNoCase(word, "ALL")
    ensures ParseKey(lib, [word] + rest) == Tree(ValueNode(Number(1)), rest)
  {
    hide KeywordOf;
    Recognised(KAll, word);
    assert ([word] + rest)[1..] == rest;
  }

  lemma StepNot(lib: Library, word: string, ts: seq<string>)
    requires EqNoCase(word, "NOT") && ts != [] && ParseKey(lib, ts).Tree?
    ensures var p := ParseKey(lib, ts); ParseKey(lib, [word] + ts) == Tree(Not(p.node), p.rest)
  {
    hide KeywordOf;
    Recognised(KNot, word);
    assert ([word] + ts)[1..] == ts;
  }

  lemma StepOr(lib: Library, word: string, ts: seq<string>)
    requires EqNoCase(word, "OR") && ts != [] && ParseKey(lib, ts).Tree?
    requires var p := ParseKey(lib, ts); p.rest != [] && ParseKey(lib, p.rest).Tree?
    ensures var p := ParseKey(lib, ts); var q := ParseKey(lib, p.rest);
            ParseKey(lib, [word] + ts) == Tree(Or(p.node, q.node), q.rest)
  {
    hide KeywordOf;
    Recognised(KOr, word);
    assert ([word] + ts)[1..] == ts;
  }

  lemma StepOpen(lib: Library, ts: seq<string>)
    requires ts != [] && ParseList(lib, ts, None).Tree?
    requires var p := ParseList(lib, ts, None); p.rest != [] && p.rest[0] == ")"
    ensures var p := ParseList(lib, ts, None); ParseKey(lib, ["("] + ts) == Tree(p.node, p.rest[1..])
  {
    hide KeywordOf;
    Recognised(KOpen, "(");
    assert (["("] + ts)[1..] == ts;
  }

  lemma StepMacro(lib: Library, m: Macro, name: string, rest: seq<string>)
    requires EqNoCase(name, MacroName(m))
    ensures var p := ParseList(lib, MacroTokens(m), None);
            ParseKey(lib, [name] + rest) == if p.Tree? then Tree(p.node, rest) else Crash
  {
    hide KeywordOf, MacroTokens;
    Recognised(KMacro(m), name);
    assert ([name] + rest)[1..] == rest;
  }

  lemma StepCond(lib: Library, c: Cond, name: string, ts: seq<string>)
    requires EqNoCase(name, CondName(c))
    ensures ParseKey(lib, [name] + ts) == match ParseArgs(lib, ArgTypes(c), ts)
                                          case ArgFail(e) => Fail(Some(e))
                                          case Args(args, rest) => Tree(Call(KeyCond(c), args), rest)
  {
    hide KeywordOf, ParseArgs, ArgTypes;
    Recognised(KCond(c), name);
    assert ([name] + ts)[1..] == ts;
  }

  lemma StepSet(lib: Library, text: string, rest: seq<string>)
    requires Good(lib, QSet(text))
    ensures ParseKey(lib, [text] + rest) == Tree(Build(lib, QSet(text)), rest)
  {
    hide KeywordOf;
    assert ([text] + rest)[1..] == rest;
  }

  lemma {:induction false} ParseGoodArgs(lib: Library, types: string, args: seq<string>, rest: seq<string>)
    requires forall i :: 0 <= i < |types| ==> types[i] == 's' || types[i] == 'n' || types[i] == 'd' || types[i] == 'u'
    requires GoodArgs(lib, types, args)
    ensures ParseArgs(lib, types, args + rest) == Args(BuildArgs(lib, types, args), rest)
  {
    hide ParseArg;
    if types == [] {
      assert args + rest == rest;
    } else {
      ParseGoodArgs(lib, types[1..], args[1..], rest);
      assert (args + rest)[1..] == args[1..] + rest && (args + rest)[0] == args[0];
      assert BuildArgs(lib, types, args)
          == [ValueNode(ParseArg(lib, types[0], args[0]).value)] + BuildArgs(lib, types[1..], args[1..]);
    }
  }

  lemma ExpansionTokens(m: Macro)
    requires m != UNKEYWORD
    ensures TokensOf(Expansion(m)) == MacroTokens(m)
  {
    if m == NEW {
      var ks := Expansion(NEW).keys;
      var k1, k0: seq<Query> := [QMacro(UNSEEN, "UNSEEN")], [];
      assert ks[1..] == k1 && k1[1..] == k0;
      assert TokensOfAll(k0) == [] && TokensOfAll(k1) == ["UNSEEN"] && TokensOfAll(ks) == ["RECENT", "UNSEEN"];
    }
  }

  /** A query starts with a token, and not with a closing one. */
  lemma Start(lib: Library, q: Query)
    requires Good(lib, q)
    ensures TokensOf(q) != [] && C0(TokensOf(q)[0]) != ')'
  {
    match q {
      case QAll(word) => Spelled(KAll, word);
      case QNot(word, _) => Spelled(KNot, word);
      case QOr(word, _, _) => Spelled(KOr, word);
      case QMacro(m, name) => Spelled(KMacro(m), name);
      case QCond(c, name, _) => Spelled(KCond(c), name);
      case _ =>
    }
  }

  /** However it is spelled, a name of the tables does not start like a parenthesis. */
  lemma Spelled(k: Keyword, name: string)
    requires k != KOther && k != KOpen && EqNoCase(name, NameOf(k))
    ensures C0(name) != ')'
  {
    FirstLetter(k);
    NameUpper(k);
    assert Fold(name)[0] == Fold(NameOf(k))[0];
  }

  lemma FirstLetter(k: Keyword)
    requires k != KOther && k != KOpen
    ensures NameOf(k) != [] && 'A' <= NameOf(k)[0] <= 'Z'
  {
  }

  // ---------- the parser inverts the printer ----------

  /** What `ParseQuery` says, for one query. */
  ghost predicate Inverts(lib: Library, q: Query, rest: seq<string>)
    requires Good(lib, q)
  {
    ParseKey(lib, TokensOf(q) + rest) == Tree(Build(lib, q), rest)
  }

  lemma Shapes(lib: Library, word: string, l: Query, r: Query)
    requires Good(lib, l) && Good(lib, r)
    ensures TokensOf(QNot(word, l)) == [word] + TokensOf(l)
    ensures TokensOf(QOr(word, l, r)) == [word] + TokensOf(l) + TokensOf(r)
    ensures EqNoCase(word, "NOT") ==>
              Good(lib, QNot(word, l)) && Build(lib, QNot(word, l)) == Not(Build(lib, l))
    ensures EqNoCase(word, "OR") ==>
              Good(lib, QOr(word, l, r)) && Build(lib, QOr(word, l, r)) == Or(Build(lib, l), Build(lib, r))
  {
  }

  lemma GroupShape(lib: Library, keys: seq<Query>)
    requires keys != [] && GoodAll(lib, keys)
    ensures Good(lib, QGroup(keys)) && TokensOf(QGroup(keys)) == ["("] + TokensOfAll(keys) + [")"]
    ensures Build(lib, QGroup(keys)) == BuildAll(lib, keys[1..], Build(lib, keys[0]))
  {
  }

  lemma {:induction false} OnNot(lib: Library, word: string, p: Query, rest: seq<string>)
    requires EqNoCase(word, "NOT") && Good(lib, p) && Inverts(lib, p, rest)
    ensures Good(lib, QNot(word, p)) && Inverts(lib, QNot(word, p), rest)
  {
    hide KeywordOf, ParseKey, TokensOf, Build, Good;
    Shapes(lib, word, p, p);
    Start(lib, p);
    StepNot(lib, word, TokensOf(p) + rest);
    assert TokensOf(QNot(word, p)) + rest == [word] + (TokensOf(p) + rest);
  }

  lemma {:induction false} OnOr(lib: Library, word: string, l: Query, r: Query, rest: seq<string>)
    requires EqNoCase(word, "OR") && Good(lib, l) && Good(lib, r)
    requires Inverts(lib, l, TokensOf(r) + rest) && Inverts(lib, r, rest)
    ensures Good(lib, QOr(word, l, r)) && Inverts(lib, QOr(word, l, r), rest)
  {
    hide KeywordOf, ParseKey, TokensOf, Build, Good;
    Shapes(lib, word, l, r);
    Start(lib, l);
    Start(lib, r);
    StepOr(lib, word, TokensOf(l) + (TokensOf(r) + rest));
    assert TokensOf(QOr(word, l, r)) + rest == [word] + (TokensOf(l) + (TokensOf(r) + rest));
  }

  lemma {:induction false} OnGroup(lib: Library, keys: seq<Query>, rest: seq<string>)
    requires keys != [] && GoodAll(lib, keys)
    requires ParseList(lib, TokensOfAll(keys) + ([")"] + rest), None) == Tree(BuildFrom(lib, keys, None), [")"] + rest)
    ensures Inverts(lib, QGroup(keys), rest)
  {
    hide KeywordOf, ParseKey, ParseList, TokensOf, Build, Good, GoodAll, BuildAll, TokensOfAll;
    GroupShape(lib, keys);
    StepOpen(lib, TokensOfAll(keys) + ([")"] + rest));
    assert ([")"] + rest)[1..] == rest;
    assert TokensOf(QGroup(keys)) + rest == ["("] + (TokensOfAll(keys) + ([")"] + rest));
  }

  lemma OnMacro(lib: Library, m: Macro, name: string, rest: seq<string>)
    requires Good(lib, QMacro(m, name)) && Good(lib, Expansion(m))
    requires ParseList(lib, TokensOf(Expansion(m)), None) == Tree(Build(lib, Expansion(m)), [])
    ensures Inverts(lib, QMacro(m, name), rest)
  {
    hide KeywordOf, ParseKey, ParseList, Expansion;
    ExpansionTokens(m);
    StepMacro(lib, m, name, rest);
  }

  lemma OnCond(lib: Library, c: Cond, name: string, args: seq<string>, rest: seq<string>)
    requires Good(lib, QCond(c, name, args))
    ensures Inverts(lib, QCond(c, name, args), rest)
  {
    hide KeywordOf, ParseKey, ParseArgs, ArgTypes, GoodArgs;
    ParseGoodArgs(lib, ArgTypes(c), args, rest);
    StepCond(lib, c, name, args + rest);
    assert TokensOf(QCond(c, name, args)) + rest == [name] + (args + rest);
  }

  /** A printed query parses to its tree and consumes exactly its own tokens. */
  lemma {:induction false} ParseQuery(lib: Library, q: Query, rest: seq<string>)
    requires Good(lib, q)
    ensures Inverts(lib, q, rest)
    decreases Depth(q), q, 0
  {
    hide KeywordOf, ParseKey, ParseList, MacroTokens, Build;
    match q {
      case QAll(word) =>
        StepAll(lib, word, rest);
        BuildLeaf(lib, q);
      case QNot(word, p) =>
        ParseQuery(lib, p, rest);
        OnNot(lib, word, p, rest);
      case QOr(word, l, r) =>
        ParseQuery(lib, l, TokensOf(r) + rest);
        ParseQuery(lib, r, rest);
        OnOr(lib, word, l, r, rest);
      case QGroup(keys) =>
        assert DepthAll(keys) == Depth(q);
        ParseQueries(lib, keys, None, [")"] + rest);
        OnGroup(lib, keys, rest);
      case QMacro(m, name) =>
        ExpansionDepth(m);
        GoodExpansion(lib, m);
        ParseOne(lib, Expansion(m));
        OnMacro(lib, m, name, rest);
      case QCond(c, name, args) =>
        OnCond(lib, c, name, args, rest);
      case QSet(text) =>
        StepSet(lib, text, rest);
    }
  }

  lemma BuildLeaf(lib: Library, q: Query)
    requires q.QAll? && Good(lib, q)
    ensures Build(lib, q) == ValueNode(Number(1))
  {
  }

  /** A query that fills a token buffer of its own. */
  lemma {:induction false} ParseOne(lib: Library, q: Query)
    requires Good(lib, q)
    ensures ParseList(lib, TokensOf(q), None) == Tree(Build(lib, q), [])
    decreases Depth(q), q, 1
  {
    hide ParseKey, TokensOf, Build, Good;
    ParseQuery(lib, q, []);
    Start(lib, q);
    assert TokensOf(q) + [] == TokensOf(q);
  }

  /** The tree of a key list that continues `left`. */
  function BuildFrom(lib: Library, keys: seq<Query>, left: Option<Node>): Node
    requires GoodAll(lib, keys) && (keys != [] || left.Some?)
  {
    match left
    case Some(n) => BuildAll(lib, keys, n)
    case None => BuildAll(lib, keys[1..], Build(lib, keys[0]))
  }

  /** One round of the list loop. */
  lemma StepList(lib: Library, ts: seq<string>, left: Option<Node>)
    requires ts != [] && C0(ts[0]) != ')' && ParseKey(lib, ts).Tree?
    ensures var p := ParseKey(lib, ts);
            ParseList(lib, ts, left) == ParseList(lib, p.rest, Some(Joined(left, p.node)))
  {
    hide ParseKey;
  }

  lemma ListEnd(lib: Library, ts: seq<string>, left: Node)
    requires ts == [] || C0(ts[0]) == ')'
    ensures ParseList(lib, ts, Some(left)) == Tree(left, ts)
  {
  }

  lemma BuildFromShape(lib: Library, keys: seq<Query>, left: Option<Node>)
    requires GoodAll(lib, keys) && keys != []
    ensures Good(lib, keys[0]) && GoodAll(lib, keys[1..])
    ensures BuildFrom(lib, keys, left) == BuildFrom(lib, keys[1..], Some(Joined(left, Build(lib, keys[0]))))
    ensures TokensOfAll(keys) == TokensOf(keys[0]) + TokensOfAll(keys[1..])
  {
    hide Build, Good, TokensOf;
  }

  /** A bare list of keys parses to the left-nested AND of their trees. */
  lemma {:induction false} ParseQueries(lib: Library, keys: seq<Query>, left: Option<Node>, rest: seq<string>)
    requires GoodAll(lib, keys) && (keys != [] || left.Some?)
    requires rest == [] || C0(rest[0]) == ')'
    ensures ParseList(lib, TokensOfAll(keys) + rest, left) == Tree(BuildFrom(lib, keys, left), rest)
    decreases DepthAll(keys), keys, 1
  {
    hide ParseKey, ParseList, TokensOf, Build, Good;
    if keys == [] {
      assert TokensOfAll(keys) + rest == rest;
      ListEnd(lib, rest, left.value);
    } else {
      hide BuildFrom, BuildAll, GoodAll, TokensOfAll;
      BuildFromShape(lib, keys, left);
      var ts, more := TokensOfAll(keys) + rest, TokensOfAll(keys[1..]) + rest;
      assert ts == TokensOf(keys[0]) + more;
      ParseQuery(lib, keys[0], more);
      Start(lib, keys[0]);
      StepList(lib, ts, left);
      ParseQueries(lib, keys[1..], Some(Joined(left, Build(lib, keys[0]))), rest);
    }
  }

  /** Section 6.4.4 of RFC 3501: the keys of a SEARCH command are intersected. */
  lemma CompileKeys(lib: Library, keys: seq<Query>)
    requires keys != [] && GoodAll(lib, keys)
    ensures Compile(lib, TokensOfAll(keys)) == Tree(BuildFrom(lib, keys, None), [])
  {
    hide ParseList, TokensOfAll, Build, Good, GoodAll;
    ParseQueries(lib, keys, None, []);
    assert TokensOfAll(keys) + [] == TokensOfAll(keys);
  }

  // ---------- macros ----------

  /** The text of each macro lexes to its tokens. */
  lemma MacroLexes(m: Macro)
    ensures Lex(MacroText(m)) == Some(MacroTokens(m))
  {
    hide Lex, IsWord, Join, MacroText;
    TableWords();
    if m == NEW {
      LexParenthesised(["RECENT", "UNSEEN"]);
      NewSpelling();
    } else {
      MacroJoins(m);
      LexWords(MacroTokens(m));
    }
  }

  lemma NewSpelling()
    ensures MacroText(NEW) == "(" + Join(["RECENT", "UNSEEN"]) + ")"
    ensures MacroTokens(NEW) == ["("] + ["RECENT", "UNSEEN"] + [")"]
  {
    hide Join;
    JoinTwo("RECENT", "UNSEEN");
  }

  lemma TableWords()
    ensures IsWord("KEYWORD") && IsWord("NOT") && IsWord("RECENT") && IsWord("UNSEEN")
    ensures IsWord("\\Answered") && IsWord("\\Deleted") && IsWord("\\Draft") && IsWord("\\Flagged")
    ensures IsWord("\\Recent") && IsWord("\\Seen")
  {
  }

  lemma MacroJoins(m: Macro)
    requires m != NEW
    ensures Join(MacroTokens(m)) == MacroText(m)
  {
    hide Join;
    MacroSpelling(m);
    var ts := MacroTokens(m);
    if |ts| == 3 {
      JoinThree(ts[0], ts[1], ts[2]);
      assert ts == [ts[0], ts[1], ts[2]];
    } else {
      JoinTwo(ts[0], ts[1]);
      assert ts == [ts[0], ts[1]];
    }
  }

  lemma MacroSpelling(m: Macro)
    requires m != NEW
    ensures var ts := MacroTokens(m);
            (|ts| == 2 && MacroText(m) == ts[0] + " " + ts[1]) ||
            (|ts| == 3 && MacroText(m) == ts[0] + " " + (ts[1] + " " + ts[2]))
  {
    hide MacroText;
    MacroTextIs(m);
    match m {
      case UNANSWERED => NotKeyword("\\Answered");
      case UNDELETED => NotKeyword("\\Deleted");
      case UNDRAFT => NotKeyword("\\Draft");
      case UNFLAGGED => NotKeyword("\\Flagged");
      case UNSEEN => NotKeyword("\\Seen");
      case _ => ShortSpelling(m);
    }
  }

  lemma MacroTextIs(m: Macro)
    ensures m == UNANSWERED ==> MacroText(m) == "NOT KEYWORD " + "\\Answered"
    ensures m == UNDELETED ==> MacroText(m) == "NOT KEYWORD " + "\\Deleted"
    ensures m == UNDRAFT ==> MacroText(m) == "NOT KEYWORD " + "\\Draft"
    ensures m == UNFLAGGED ==> MacroText(m) == "NOT KEYWORD " + "\\Flagged"
    ensures m == UNSEEN ==> MacroText(m) == "NOT KEYWORD " + "\\Seen"
  {
  }

  lemma NotKeyword(flag: string)
    ensures "NOT KEYWORD " + flag == "NOT" + " " + ("KEYWORD" + " " + flag)
  {
    assert "NOT KEYWORD " == "NOT" + " " + ("KEYWORD" + " ");
  }

  lemma ShortSpelling(m: Macro)
    requires m != NEW && |MacroTokens(m)| == 2
    ensures MacroText(m) == MacroTokens(m)[0] + " " + MacroTokens(m)[1]
  {
    if MacroTokens(m)[0] == "KEYWORD" {
      hide MacroText;
      KeywordTextIs(m);
      assert "KEYWORD " == "KEYWORD" + " ";
    } else {
      assert m == OLD || m == UNKEYWORD;
    }
  }

  lemma KeywordTextIs(m: Macro)
    requires |MacroTokens(m)| == 2 && MacroTokens(m)[0] == "KEYWORD"
    ensures MacroText(m) == "KEYWORD " + MacroTokens(m)[1]
  {
  }

  lemma JoinThree(a: string, b: string, c: string)
    ensures Join([a, b, c]) == a + " " + (b + " " + c)
  {
    var two := [b, c];
    assert [a, b, c][1..] == two && Join([a, b, c]) == a + " " + Join(two);
    JoinTwo(b, c);
  }

  lemma JoinTwo(a: string, b: string)
    ensures Join([a, b]) == a + " " + b
  {
    assert [a, b][1..] == [b];
  }

  /** At key position a macro parses like its parenthesised expansion, whatever
      tokens follow. */
  lemma MacroAtKey(lib: Library, m: Macro, name: string, rest: seq<string>)
    requires m != UNKEYWORD && EqNoCase(name, MacroName(m))
    ensures ParseKey(lib, [name] + rest) == ParseKey(lib, ["("] + MacroTokens(m) + [")"] + rest)
    ensures ParseKey(lib, [name] + rest).Tree? && ParseKey(lib, [name] + rest).rest == rest
  {
    hide ParseKey, MacroTokens, Expansion;
    var q, e := QMacro(m, name), Expansion(m);
    GoodExpansion(lib, m);
    ExpansionTokens(m);
    ParseQuery(lib, q, rest);
    Parenthesised(lib, e);
    ParseQuery(lib, QGroup([e]), rest);
  }

  lemma Parenthesised(lib: Library, e: Query)
    requires Good(lib, e)
    ensures Good(lib, QGroup([e])) && Build(lib, QGroup([e])) == Build(lib, e)
    ensures TokensOf(QGroup([e])) == ["("] + TokensOf(e) + [")"]
  {
    var none: seq<Query> := [];
    assert [e][1..] == none && GoodAll(lib, none) && TokensOfAll(none) == [];
    assert GoodAll(lib, [e]) && TokensOfAll([e]) == TokensOf(e) + [];
  }

  /** UNKEYWORD expands to a key without its argument: the parser aborts on it,
      whatever follows. */
  lemma UnkeywordAborts(lib: Library, name: string, rest: seq<string>)
    requires EqNoCase(name, "UNKEYWORD")
    ensures ParseKey(lib, [name] + rest) == Crash
  {
    hide ParseKey;
    BareKeyword(lib);
    StepMacro(lib, UNKEYWORD, name, rest);
    assert MacroTokens(UNKEYWORD) == ["NOT", "KEYWORD"];
  }

  lemma BareKeyword(lib: Library)
    ensures ParseList(lib, ["NOT", "KEYWORD"], None).Fail?
  {
    hide KeywordOf;
    var none: seq<string> := [];
    StepCond(lib, KEYWORD, "KEYWORD", none);
    assert ["KEYWORD"] + none == ["KEYWORD"];
    Recognised(KNot, "NOT");
    var ts := ["NOT", "KEYWORD"];
    assert ts[1..] == ["KEYWORD"];
    assert ParseKey(lib, ts).Fail?;
  }

  /** The query with every macro replaced by its parenthesised expansion. */
  function Expanded(lib: Library, q: Query): Query
    requires Good(lib, q)
    decreases Depth(q), q, 0
  {
    match q
    case QNot(word, p) => QNot(word, Expanded(lib, p))
    case QOr(word, l, r) => QOr(word, Expanded(lib, l), Expanded(lib, r))
    case QGroup(keys) =>
      assert GoodAll(lib, keys) && DepthAll(keys) == Depth(q);
      QGroup(ExpandedAll(lib, keys))
    case QMacro(m, _) =>
      var e := Expansion(m);
      assert Depth(e) < Depth(q) by { ExpansionDepth(m); }
      assert Good(lib, e) by { GoodExpansion(lib, m); }
      QGroup([Expanded(lib, e)])
    case _ => q
  }

  function ExpandedAll(lib: Library, keys: seq<Query>): seq<Query>
    requires GoodAll(lib, keys)
    decreases DepthAll(keys), keys, 1
  {
    if keys == [] then [] else [Expanded(lib, keys[0])] + ExpandedAll(lib, keys[1..])
  }

  lemma {:induction false} ExpandedBuild(lib: Library, q: Query)
    requires Good(lib, q)
    ensures Good(lib, Expanded(lib, q)) && Depth(Expanded(lib, q)) == 0
    ensures Build(lib, Expanded(lib, q)) == Build(lib, q)
    decreases Depth(q), q, 0
  {
    match q {
      case QNot(_, p) => ExpandedBuild(lib, p);
      case QOr(_, l, r) =>
        ExpandedBuild(lib, l);
        ExpandedBuild(lib, r);
      case QGroup(keys) =>
        assert GoodAll(lib, keys) && DepthAll(keys) == Depth(q);
        ExpandedBuild(lib, keys[0]);
        var node := Build(lib, keys[0]);
        ExpandedBuildAll(lib, keys, node);
        ExpandedBuildAll(lib, keys[1..], node);
        assert ExpandedAll(lib, keys)[1..] == ExpandedAll(lib, keys[1..]);
      case QMacro(m, name) =>
        var e := Expansion(m);
        ExpansionDepth(m);
        GoodExpansion(lib, m);
        ExpandedBuild(lib, e);
        Parenthesised(lib, Expanded(lib, e));
        DepthOfOne(Expanded(lib, e));
      case _ =>
    }
  }

  lemma DepthOfOne(q: Query)
    ensures Depth(QGroup([q])) == Depth(q)
  {
    var none: seq<Query> := [];
    assert [q][1..] == none && DepthAll(none) == 0;
    assert DepthAll([q]) == Depth(q);
  }

  lemma {:induction false} ExpandedBuildAll(lib: Library, keys: seq<Query>, left: Node)
    requires GoodAll(lib, keys)
    ensures GoodAll(lib, ExpandedAll(lib, keys)) && DepthAll(ExpandedAll(lib, keys)) == 0
    ensures BuildAll(lib, ExpandedAll(lib, keys), left) == BuildAll(lib, keys, left)
    decreases DepthAll(keys), keys, 1
  {
    hide Good, Build, Expanded;
    if keys != [] {
      ExpandedBuild(lib, keys[0]);
      ExpandedBuildAll(lib, keys[1..], And(left, Build(lib, keys[0])));
      assert ExpandedAll(lib, keys)[1..] == ExpandedAll(lib, keys[1..]);
    }
  }

  /** In any query and before any tokens, expanding all macros changes nothing. */
  lemma MacrosAnywhere(lib: Library, q: Query, rest: seq<string>)
    requires Good(lib, q)
    ensures Good(lib, Expanded(lib, q)) && Depth(Expanded(lib, q)) == 0
    ensures ParseKey(lib, TokensOf(q) + rest) == ParseKey(lib, TokensOf(Expanded(lib, q)) + rest)
  {
    hide ParseKey, TokensOf, Build, Good, Expanded;
    ExpandedBuild(lib, q);
    ParseQuery(lib, q, rest);
    ParseQuery(lib, Expanded(lib, q), rest);
  }

  function MacroTree(lib: Library, m: Macro): Node
    requires m != UNKEYWORD
  {
    Build(lib, QMacro(m, MacroName(m)))
  }

  lemma MacroTreeIs(lib: Library, m: Macro)
    requires m != UNKEYWORD
    ensures Good(lib, Expansion(m)) && MacroTree(lib, m) == Build(lib, Expansion(m))
    ensures Expansion(m).QNot? ==> Good(lib, Expansion(m).q) && MacroTree(lib, m) == Not(Build(lib, Expansion(m).q))
  {
    GoodExpansion(lib, m);
  }

  /** The pairs of which the first key is meant to be the negation of the second. */
  predicate Negates(n: Macro, k: Macro) {
    || (n == UNANSWERED && k == ANSWERED)
    || (n == UNDELETED && k == DELETED)
    || (n == UNDRAFT && k == DRAFT)
    || (n == UNFLAGGED && k == FLAGGED)
    || (n == UNSEEN && k == SEEN)
    || (n == OLD && k == RECENT)
  }

  /** Each UNx key is the negation of x, OLD is not RECENT, NEW is RECENT and UNSEEN. */
  lemma MacroTrees(lib: Library)
    ensures forall n, k :: Negates(n, k) ==> MacroTree(lib, n) == Not(MacroTree(lib, k))
    ensures MacroTree(lib, NEW) == And(MacroTree(lib, RECENT), MacroTree(lib, UNSEEN))
  {
    hide Build, MacroTree, Expansion;
    forall n, k | Negates(n, k) ensures MacroTree(lib, n) == Not(MacroTree(lib, k)) {
      Negation(lib, n, k);
    }
    NewTree(lib);
  }

  lemma Negation(lib: Library, n: Macro, k: Macro)
    requires Negates(n, k)
    ensures MacroTree(lib, n) == Not(MacroTree(lib, k))
  {
    hide Build, MacroTree, Expansion, Negates;
    NegationShape(n, k);
    MacroTreeIs(lib, n);
    MacroTreeIs(lib, k);
    MacroTreeDef(lib, k);
  }

  lemma NegationShape(n: Macro, k: Macro)
    requires Negates(n, k)
    ensures n != UNKEYWORD && k != UNKEYWORD
    ensures Expansion(n) == QNot("NOT", Expansion(k)) || Expansion(n) == QNot("NOT", QMacro(k, MacroName(k)))
  {
  }

  lemma MacroTreeDef(lib: Library, m: Macro)
    requires m != UNKEYWORD
    ensures MacroTree(lib, m) == Build(lib, QMacro(m, MacroName(m)))
  {
  }

  lemma NewTree(lib: Library)
    ensures MacroTree(lib, NEW) == And(MacroTree(lib, RECENT), MacroTree(lib, UNSEEN))
  {
    hide Build, MacroTree;
    MacroTreeIs(lib, NEW);
    var keys := Expansion(NEW).keys;
    var last, none: seq<Query> := [QMacro(UNSEEN, "UNSEEN")], [];
    MacroTreeDef(lib, RECENT);
    MacroTreeDef(lib, UNSEEN);
    assert keys[1..] == last && last[1..] == none && GoodAll(lib, none) && GoodAll(lib, last) && GoodAll(lib, keys);
    GroupShape(lib, keys);
    assert BuildAll(lib, last, MacroTree(lib, RECENT)) == And(MacroTree(lib, RECENT), MacroTree(lib, UNSEEN));
  }
}
