/** The trees the parser can return are exactly the well-formed ones, and each is
    the parse of its own printed form. */
module SearchTrees {
  import opened Common
  import opened Search
  import opened SearchRoundTrip

  /** A token that no table knows and of which the message-set parser says `res`. */
  predicate IsSet(lib: Library, t: string, res: SetResult) {
    KeywordOf(t) == KOther && lib.msgset(t) == res
  }

  /** The argument type letters of the condition table. */
  predicate WellTyped(lib: Library, ty: char, v: Value) {
    match ty
    case 's' => v.Str?
    case 'n' => v.Number? && 0 <= v.n + OFF_LIMIT < 2 * OFF_LIMIT
    case 'd' => v.Date? && lib.date(v.d).Some?
    case _ => v.Msgset? && lib.uidset(v.set_)
  }

  ghost predicate WellFormedArgs(lib: Library, types: string, args: seq<Node>) {
    |args| == |types| && forall i :: 0 <= i < |args| ==> args[i].ValueNode? && WellTyped(lib, types[i], args[i].v)
  }

  ghost predicate WellFormed(lib: Library, node: Node) {
    match node
    case Call(KeyCond(c), args) => WellFormedArgs(lib, ArgTypes(c), args)
    case Call(KeyMsgset, args) =>
      |args| == 1 && args[0].ValueNode? && args[0].v.Msgset? && IsSet(lib, args[0].v.set_, SetOk)
    case And(l, r) => WellFormed(lib, l) && WellFormed(lib, r)
    case Or(l, r) => WellFormed(lib, l) && WellFormed(lib, r)
    case Not(p) => WellFormed(lib, p)
    case ValueNode(v) => v == Number(1)
    case False => exists t :: IsSet(lib, t, SetNoent)
  }

  // ---------- the parser returns well-formed trees only ----------

  lemma ArgWellTyped(lib: Library, ty: char, t: string)
    requires ty == 's' || ty == 'n' || ty == 'd' || ty == 'u'
    requires ParseArg(lib, ty, t).Some?
    ensures WellTyped(lib, ty, ParseArg(lib, ty, t).value)
  {
    hide Strtoul;
  }

  lemma {:induction false} ArgsWellFormed(lib: Library, types: string, ts: seq<string>)
    requires forall i :: 0 <= i < |types| ==> types[i] == 's' || types[i] == 'n' || types[i] == 'd' || types[i] == 'u'
    requires ParseArgs(lib, types, ts).Args?
    ensures WellFormedArgs(lib, types, ParseArgs(lib, types, ts).args)
  {
    hide ParseArg, WellTyped;
    if types != [] {
      ArgWellTyped(lib, types[0], ts[0]);
      ArgsWellFormed(lib, types[1..], ts[1..]);
    }
  }

  lemma SimpleWellFormed(lib: Library, ts: seq<string>)
    requires ts != [] && (KeywordOf(ts[0]).KCond? || KeywordOf(ts[0]) == KOther)
    requires ParseSimple(lib, ts).Tree?
    ensures WellFormed(lib, ParseSimple(lib, ts).node)
  {
    hide KeywordOf, ParseArgs, ArgTypes;
    if KeywordOf(ts[0]).KCond? {
      ArgsWellFormed(lib, ArgTypes(KeywordOf(ts[0]).c), ts[1..]);
    } else {
      assert IsSet(lib, ts[0], lib.msgset(ts[0]));
    }
  }

  lemma TailRank(ts: seq<string>)
    requires ts != []
    ensures MaxRank(ts[1..]) <= MaxRank(ts) && Rank(ts[0]) <= MaxRank(ts)
  {
  }

  /** Type soundness of the parser: every tree it returns is well formed. */
  lemma {:induction false} KeyWellFormed(lib: Library, ts: seq<string>)
    requires ts != [] && ParseKey(lib, ts).Tree?
    ensures WellFormed(lib, ParseKey(lib, ts).node)
    decreases MaxRank(ts), |ts|, 0
  {
    hide KeywordOf, ParseList, ParseSimple, MaxRank, MacroTokens;
    TailRank(ts);
    match KeywordOf(ts[0]) {
      case KOpen => ListWellFormed(lib, ts[1..], None);
      case KAll =>
      case KNot => KeyWellFormed(lib, ts[1..]);
      case KOr =>
        KeyWellFormed(lib, ts[1..]);
        KeyWellFormed(lib, ParseKey(lib, ts[1..]).rest);
      case KMacro(m) =>
        MacroTokensRank(m);
        ListWellFormed(lib, MacroTokens(m), None);
      case _ => SimpleWellFormed(lib, ts);
    }
  }

  lemma {:induction false} ListWellFormed(lib: Library, ts: seq<string>, left: Option<Node>)
    requires left.Some? ==> WellFormed(lib, left.value)
    requires ParseList(lib, ts, left).Tree?
    ensures WellFormed(lib, ParseList(lib, ts, left).node)
    decreases MaxRank(ts), |ts|, 1
  {
    hide ParseKey;
    if ts != [] && C0(ts[0]) != ')' {
      var p := ParseKey(lib, ts);
      KeyWellFormed(lib, ts);
      ListWellFormed(lib, p.rest, Some(Joined(left, p.node)));
    }
  }

  // ---------- every well-formed tree is the parse of its printed form ----------

  /** The library takes no closing parenthesis for a message set. */
  ghost predicate Sane(lib: Library) {
    forall t :: C0(t) == ')' ==> lib.msgset(t) == SetSyntax
  }

  function ArgText(v: Value): string {
    match v
    case Str(s) => s
    case Number(n) => Dec(Unsigned(n))
    case Date(d) => d
    case Msgset(s) => s
    case Undefined => ""
  }

  /** A tree in prefix form, with its ANDs parenthesised. */
  ghost function QueryOf(lib: Library, node: Node): Query
    requires WellFormed(lib, node)
  {
    match node
    case Call(KeyCond(c), args) =>
      QCond(c, CondName(c), seq(|args|, i requires 0 <= i < |args| && args[i].ValueNode? => ArgText(args[i].v)))
    case Call(KeyMsgset, args) => QSet(args[0].v.set_)
    case And(l, r) => QGroup([QueryOf(lib, l), QueryOf(lib, r)])
    case Or(l, r) => QOr("OR", QueryOf(lib, l), QueryOf(lib, r))
    case Not(p) => QNot("NOT", QueryOf(lib, p))
    case ValueNode(_) => QAll("ALL")
    case False => var t :| IsSet(lib, t, SetNoent); QSet(t)
  }

  lemma ArgInverse(lib: Library, ty: char, v: Value)
    requires ty == 's' || ty == 'n' || ty == 'd' || ty == 'u'
    requires WellTyped(lib, ty, v)
    ensures ParseArg(lib, ty, ArgText(v)) == Some(v)
  {
    hide Strtoul, Dec;
    if ty == 'n' {
      StrtoulDec(Unsigned(v.n), []);
      assert Dec(Unsigned(v.n)) + [] == Dec(Unsigned(v.n));
    }
  }

  lemma CondInverse(lib: Library, c: Cond, args: seq<Node>)
    requires WellFormedArgs(lib, ArgTypes(c), args)
    ensures var q := QueryOf(lib, Call(KeyCond(c), args)); Good(lib, q) && Build(lib, q) == Call(KeyCond(c), args)
  {
    hide ArgTypes, CondName, WellTyped, ParseArg, ArgText;
    var texts := QueryOf(lib, Call(KeyCond(c), args)).args;
    forall i | 0 <= i < |args| ensures ParseArg(lib, ArgTypes(c)[i], texts[i]) == Some(args[i].v) {
      ArgInverse(lib, ArgTypes(c)[i], args[i].v);
    }
    assert BuildArgs(lib, ArgTypes(c), texts) == args;
  }

  lemma AndInverse(lib: Library, l: Query, r: Query)
    requires Good(lib, l) && Good(lib, r)
    ensures Good(lib, QGroup([l, r])) && Build(lib, QGroup([l, r])) == And(Build(lib, l), Build(lib, r))
  {
    hide Good, Build;
    var last, none: seq<Query> := [r], [];
    assert [l, r][1..] == last && last[1..] == none && GoodAll(lib, none) && GoodAll(lib, last) && GoodAll(lib, [l, r]);
    GroupShape(lib, [l, r]);
  }

  lemma {:induction false} BuildInverse(lib: Library, node: Node)
    requires Sane(lib) && WellFormed(lib, node)
    ensures Good(lib, QueryOf(lib, node)) && Build(lib, QueryOf(lib, node)) == node
  {
    hide KeywordOf;
    match node {
      case Call(KeyCond(c), args) => CondInverse(lib, c, args);
      case Call(KeyMsgset, args) => assert args == [ValueNode(Msgset(args[0].v.set_))];
      case And(l, r) =>
        BuildInverse(lib, l);
        BuildInverse(lib, r);
        AndInverse(lib, QueryOf(lib, l), QueryOf(lib, r));
      case Or(l, r) =>
        BuildInverse(lib, l);
        BuildInverse(lib, r);
      case Not(p) => BuildInverse(lib, p);
      case _ =>
    }
  }

  /** Printing a tree and parsing the tokens gives the tree back and consumes
      exactly its tokens, whatever follows. */
  lemma TreeRoundTrip(lib: Library, node: Node, rest: seq<string>)
    requires Sane(lib) && WellFormed(lib, node)
    ensures ParseKey(lib, TokensOf(QueryOf(lib, node)) + rest) == Tree(node, rest)
  {
    hide ParseKey, TokensOf, QueryOf, Build, Good, WellFormed;
    BuildInverse(lib, node);
    ParseQuery(lib, QueryOf(lib, node), rest);
  }

  /** A tree can come out of the parser if and only if it is well formed. */
  lemma ParsedExactly(lib: Library, node: Node)
    requires Sane(lib)
    ensures WellFormed(lib, node) <==> exists ts: seq<string> :: ts != [] && ParseKey(lib, ts) == Tree(node, [])
  {
    hide ParseKey, TokensOf, Build, Good, WellFormed;
    if WellFormed(lib, node) {
      var q := QueryOf(lib, node);
      TreeRoundTrip(lib, node, []);
      BuildInverse(lib, node);
      Start(lib, q);
      assert TokensOf(q) + [] == TokensOf(q);
    }
    forall ts: seq<string> | ts != [] && ParseKey(lib, ts) == Tree(node, []) ensures WellFormed(lib, node) {
      KeyWellFormed(lib, ts);
    }
  }
}
