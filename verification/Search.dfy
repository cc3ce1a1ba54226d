/** SEARCH: the key tables, the parse tree and the recursive-descent parser, as
    functions on the tokens from the current one on. */
module Search {
  import opened Common

  // ---------- the tables ----------

  /** The basic conditions of `condlist`. */
  datatype Cond =
    | BCC | BEFORE | BODY | CC | FROM | HEADER | KEYWORD | LARGER | ON
    | SENTBEFORE | SENTON | SENTSINCE | SINCE | SMALLER | SUBJECT | TEXT | TO | UID

  /** The keys of `equiv_list`. */
  datatype Macro =
    | ANSWERED | DELETED | DRAFT | FLAGGED | NEW | OLD | RECENT | SEEN
    | UNANSWERED | UNDELETED | UNDRAFT | UNFLAGGED | UNKEYWORD | UNSEEN

  datatype Keyword = KOpen | KAll | KNot | KOr | KMacro(m: Macro) | KCond(c: Cond) | KOther

  function CondName(c: Cond): string {
    match c
    case BCC => "BCC" case BEFORE => "BEFORE" case BODY => "BODY" case CC => "CC" case FROM => "FROM"
    case HEADER => "HEADER" case KEYWORD => "KEYWORD" case LARGER => "LARGER" case ON => "ON"
    case SENTBEFORE => "SENTBEFORE" case SENTON => "SENTON" case SENTSINCE => "SENTSINCE"
    case SINCE => "SINCE" case SMALLER => "SMALLER" case SUBJECT => "SUBJECT" case TEXT => "TEXT"
    case TO => "TO" case UID => "UID"
  }

  /** s: string, n: number, d: date, u: set of UIDs */
  function ArgTypes(c: Cond): (r: string)
    ensures forall i :: 0 <= i < |r| ==> r[i] == 's' || r[i] == 'n' || r[i] == 'd' || r[i] == 'u'
    ensures 1 <= |r| <= 2
  {
    match c
    case BEFORE | ON | SENTBEFORE | SENTON | SENTSINCE | SINCE => "d"
    case LARGER | SMALLER => "n"
    case UID => "u"
    case HEADER => "ss"
    case _ => "s"
  }

  function MacroName(m: Macro): string {
    match m
    case ANSWERED => "ANSWERED" case DELETED => "DELETED" case DRAFT => "DRAFT" case FLAGGED => "FLAGGED"
    case NEW => "NEW" case OLD => "OLD" case RECENT => "RECENT" case SEEN => "SEEN"
    case UNANSWERED => "UNANSWERED" case UNDELETED => "UNDELETED" case UNDRAFT => "UNDRAFT"
    case UNFLAGGED => "UNFLAGGED" case UNKEYWORD => "UNKEYWORD" case UNSEEN => "UNSEEN"
  }

  /** The equivalent query, as the table spells it. */
  function MacroText(m: Macro): string {
    match m
    case ANSWERED => "KEYWORD \\Answered" case DELETED => "KEYWORD \\Deleted"
    case DRAFT => "KEYWORD \\Draft" case FLAGGED => "KEYWORD \\Flagged"
    case NEW => "(RECENT UNSEEN)" case OLD => "NOT RECENT"
    case RECENT => "KEYWORD \\Recent" case SEEN => "KEYWORD \\Seen"
    case UNANSWERED => "NOT KEYWORD \\Answered" case UNDELETED => "NOT KEYWORD \\Deleted"
    case UNDRAFT => "NOT KEYWORD \\Draft" case UNFLAGGED => "NOT KEYWORD \\Flagged"
    case UNKEYWORD => "NOT KEYWORD" case UNSEEN => "NOT KEYWORD \\Seen"
  }

  /** Its tokens; `MacroLexes` ties them to the text. */
  function MacroTokens(m: Macro): seq<string> {
    match m
    case ANSWERED => ["KEYWORD", "\\Answered"] case DELETED => ["KEYWORD", "\\Deleted"]
    case DRAFT => ["KEYWORD", "\\Draft"] case FLAGGED => ["KEYWORD", "\\Flagged"]
    case NEW => ["(", "RECENT", "UNSEEN", ")"] case OLD => ["NOT", "RECENT"]
    case RECENT => ["KEYWORD", "\\Recent"] case SEEN => ["KEYWORD", "\\Seen"]
    case UNANSWERED => ["NOT", "KEYWORD", "\\Answered"] case UNDELETED => ["NOT", "KEYWORD", "\\Deleted"]
    case UNDRAFT => ["NOT", "KEYWORD", "\\Draft"] case UNFLAGGED => ["NOT", "KEYWORD", "\\Flagged"]
    case UNKEYWORD => ["NOT", "KEYWORD"] case UNSEEN => ["NOT", "KEYWORD", "\\Seen"]
  }

  function AllConds(): seq<Cond> {
    [BCC, BEFORE, BODY, CC, FROM, HEADER, KEYWORD, LARGER, ON,
     SENTBEFORE, SENTON, SENTSINCE, SINCE, SMALLER, SUBJECT, TEXT, TO, UID]
  }

  function AllMacros(): seq<Macro> {
    [ANSWERED, DELETED, DRAFT, FLAGGED, NEW, OLD, RECENT, SEEN,
     UNANSWERED, UNDELETED, UNDRAFT, UNFLAGGED, UNKEYWORD, UNSEEN]
  }

  function FindMacro(t: string, table: seq<Macro>): (r: Option<Macro>)
    ensures r.Some? ==> r.value in table && EqNoCase(MacroName(r.value), t)
    ensures r.None? ==> forall m :: m in table ==> !EqNoCase(MacroName(m), t)
  {
    if table == [] then None
    else if EqNoCase(MacroName(table[0]), t) then Some(table[0])
    else FindMacro(t, table[1..])
  }

  function FindCond(t: string, table: seq<Cond>): (r: Option<Cond>)
    ensures r.Some? ==> r.value in table && EqNoCase(CondName(r.value), t)
    ensures r.None? ==> forall c :: c in table ==> !EqNoCase(CondName(c), t)
  {
    if table == [] then None
    else if EqNoCase(CondName(table[0]), t) then Some(table[0])
    else FindCond(t, table[1..])
  }

  /** What a token means at key position, in the order of the comparisons. */
  function KeywordOf(t: string): Keyword {
    if t == "(" then KOpen
    else if EqNoCase(t, "ALL") then KAll
    else if EqNoCase(t, "NOT") then KNot
    else if EqNoCase(t, "OR") then KOr
    else
      match FindMacro(t, AllMacros())
      case Some(m) => KMacro(m)
      case None =>
        match FindCond(t, AllConds())
        case Some(c) => KCond(c)
        case None => KOther
  }

  // ---------- no two names of the tables are equal ----------

  function NameOf(k: Keyword): string
    requires k != KOther
  {
    match k
    case KOpen => "("
    case KAll => "ALL"
    case KNot => "NOT"
    case KOr => "OR"
    case KMacro(m) => MacroName(m)
    case KCond(c) => CondName(c)
  }

  /** The first, second, middle and last letters of a name, and its length. */
  function Letters(s: string): (char, char, char, char, int) {
    if s == [] then (NUL, NUL, NUL, NUL, 0) else (s[0], s[if |s| > 1 then 1 else 0], s[|s| / 2], s[|s| - 1], |s|)
  }

  lemma MacroInjective(m: Macro, n: Macro)
    requires Letters(MacroName(m)) == Letters(MacroName(n))
    ensures m == n
  {
  }

  lemma CondInjective(c: Cond, d: Cond)
    requires Letters(CondName(c)) == Letters(CondName(d))
    ensures c == d
  {
  }

  lemma MacroNotCond(m: Macro, c: Cond)
    ensures Letters(MacroName(m)) != Letters(CondName(c))
  {
  }

  lemma NotReserved(m: Macro, c: Cond)
    ensures Letters(MacroName(m)) !in {Letters("("), Letters("ALL"), Letters("NOT"), Letters("OR")}
    ensures Letters(CondName(c)) !in {Letters("("), Letters("ALL"), Letters("NOT"), Letters("OR")}
  {
  }

  lemma NameInjective(k: Keyword, l: Keyword)
    requires k != KOther && l != KOther && NameOf(k) == NameOf(l)
    ensures k == l
  {
    hide CondName, MacroName;
    NameUpper(k);
    assert Letters(NameOf(k)) == Letters(NameOf(l));
    NotReserved(if k.KMacro? then k.m else NEW, if k.KCond? then k.c else BCC);
    NotReserved(if l.KMacro? then l.m else NEW, if l.KCond? then l.c else BCC);
    match (k, l) {
      case (KMacro(m), KMacro(n)) => MacroInjective(m, n);
      case (KCond(c), KCond(d)) => CondInjective(c, d);
      case (KMacro(m), KCond(c)) => MacroNotCond(m, c);
      case (KCond(c), KMacro(m)) => MacroNotCond(m, c);
      case _ =>
    }
  }

  lemma CondUpper(c: Cond)
    ensures IsUpper(CondName(c)) && CondName(c) != []
  {
  }

  lemma MacroUpper(m: Macro)
    ensures IsUpper(MacroName(m)) && MacroName(m) != []
  {
  }

  lemma NameUpper(k: Keyword)
    requires k != KOther
    ensures IsUpper(NameOf(k)) && NameOf(k) != []
  {
    hide CondName, MacroName;
    match k {
      case KMacro(m) => MacroUpper(m);
      case KCond(c) => CondUpper(c);
      case _ =>
    }
  }

  lemma AllListed(m: Macro, c: Cond)
    ensures m in AllMacros() && c in AllConds()
  {
  }

  /** A key is recognised in any mix of cases. */
  lemma Recognised(k: Keyword, t: string)
    requires k != KOther && if k == KOpen then t == "(" else EqNoCase(t, NameOf(k))
    ensures KeywordOf(t) == k
  {
    hide NameOf, FindMacro, FindCond, AllMacros, AllConds;
    NameUpper(k);
    FoldUpper(NameOf(k));
    NameUpper(KOpen);
    FoldUpper(NameOf(KOpen));
    if k != KOpen {
      SameName(k, t, KOpen);
      SameName(k, t, KAll);
      SameName(k, t, KNot);
      SameName(k, t, KOr);
      var m := FindMacro(t, AllMacros());
      if m.Some? {
        SameName(k, t, KMacro(m.value));
      } else {
        var c := FindCond(t, AllConds());
        if c.Some? {
          SameName(k, t, KCond(c.value));
        }
        AllListed(if k.KMacro? then k.m else ANSWERED, if k.KCond? then k.c else BCC);
        NamesOf(k);
      }
      NamesOf(KOpen);
    }
  }

  /** One spelling cannot fit two keys. */
  lemma SameName(k: Keyword, t: string, l: Keyword)
    requires k != KOther && l != KOther && EqNoCase(t, NameOf(k))
    ensures EqNoCase(t, NameOf(l)) ==> k == l
    ensures l.KMacro? ==> NameOf(l) == MacroName(l.m)
    ensures l.KCond? ==> NameOf(l) == CondName(l.c)
    ensures l == KAll ==> NameOf(l) == "ALL"
    ensures l == KNot ==> NameOf(l) == "NOT"
    ensures l == KOr ==> NameOf(l) == "OR"
    ensures l == KOpen ==> NameOf(l) == "("
  {
    if EqNoCase(t, NameOf(l)) {
      hide NameOf;
      NameUpper(k);
      NameUpper(l);
      FoldUpper(NameOf(k));
      FoldUpper(NameOf(l));
      NameInjective(k, l);
    }
  }

  lemma NamesOf(k: Keyword)
    requires k != KOther
    ensures k.KMacro? ==> NameOf(k) == MacroName(k.m)
    ensures k.KCond? ==> NameOf(k) == CondName(k.c)
  {
  }

  // ---------- macros inside macros ----------

  /** How deep the expansion of a key nests. */
  function MacroRank(m: Macro): nat {
    if m == NEW || m == OLD then 2 else 1
  }

  function Rank(t: string): nat {
    match KeywordOf(t)
    case KMacro(m) => MacroRank(m)
    case _ => 0
  }

  function MaxRank(ts: seq<string>): nat {
    if ts == [] then 0
    else if Rank(ts[0]) > MaxRank(ts[1..]) then Rank(ts[0]) else MaxRank(ts[1..])
  }

  lemma MacroLetter(m: Macro)
    ensures MacroName(m) != [] && 'A' <= MacroName(m)[0] <= 'Z' && Fold(MacroName(m))[0] == MacroName(m)[0]
  {
  }

  /** A token that starts like no name is no macro. */
  lemma FlagRank(t: string)
    requires t != [] && (t[0] == '\\' || t[0] == ')' || t[0] == '(')
    ensures Rank(t) == 0
  {
    hide FindCond, AllMacros, AllConds, MacroName;
    var m := FindMacro(t, AllMacros());
    if m.Some? {
      assert Fold(t)[0] == t[0] && Fold(MacroName(m.value))[0] == t[0];
      MacroLetter(m.value);
    }
  }

  lemma TokenRanks()
    ensures Rank("KEYWORD") == 0 && Rank("NOT") == 0 && Rank("(") == 0 && Rank(")") == 0
    ensures Rank("RECENT") == 1 && Rank("UNSEEN") == 1
  {
    hide FindCond, AllMacros, AllConds, FindMacro, KeywordOf;
    Recognised(KCond(KEYWORD), "KEYWORD");
    Recognised(KNot, "NOT");
    FlagRank("(");
    FlagRank(")");
    Recognised(KMacro(RECENT), "RECENT");
    Recognised(KMacro(UNSEEN), "UNSEEN");
  }

  /** The expansion of a macro only uses macros of lower rank. */
  lemma MacroTokensRank(m: Macro)
    ensures MaxRank(MacroTokens(m)) < MacroRank(m)
  {
    hide Rank;
    TokenRanks();
    var ts := MacroTokens(m);
    forall i | 0 <= i < |ts| ensures Rank(ts[i]) < MacroRank(m) {
      if ts[i][0] == '\\' {
        FlagRank(ts[i]);
      }
    }
    MaxRankBound(ts, MacroRank(m));
  }

  lemma {:induction false} MaxRankBound(ts: seq<string>, d: nat)
    requires d > 0 && forall i :: 0 <= i < |ts| ==> Rank(ts[i]) < d
    ensures MaxRank(ts) < d
  {
    if ts != [] {
      MaxRankBound(ts[1..], d);
    }
  }

  // ---------- the parse tree ----------

  datatype Value = Undefined | Number(n: int) | Str(s: string) | Date(d: string) | Msgset(set_: string)

  datatype Key = KeyCond(c: Cond) | KeyMsgset

  datatype Node =
    | Call(key: Key, args: seq<Node>)
    | And(left: Node, right: Node)
    | Or(left: Node, right: Node)
    | Not(arg: Node)
    | ValueNode(v: Value)
    | False

  datatype SetResult = SetOk | SetSyntax | SetNoent

  /** The library's parsers for message sets and dates and its character sets; their
      values stand in the tree as the text they were parsed from.  `date` gives the day
      that a text names, counted from 1 January 1970.  `isuid` says
      that the command is UID SEARCH, `inSet` whether a bare set contains a number, and
      `inUids` whether the ranges written in a UID set do. */
  datatype Library = Library(
    msgset: string -> SetResult,
    uidset: string -> bool,
    date: string -> Option<int>,
    charset: string -> bool,
    isuid: bool,
    inSet: (string, nat) -> bool,
    inUids: (string, nat) -> bool)

  datatype Parse =
    | Tree(node: Node, rest: seq<string>)
    | Fail(mesg: Option<string>)
    | Crash

  const OFF_LIMIT: nat := 0x8000_0000_0000_0000

  /** An unsigned long stored in a (signed, 64-bit) mu_off_t. */
  function ToOff(n: nat): int {
    if n >= OFF_LIMIT then n - 2 * OFF_LIMIT else n
  }

  /** A mu_off_t converted to an unsigned 64-bit number. */
  function Unsigned(n: int): nat {
    n % (2 * OFF_LIMIT)
  }

  function ParseArg(lib: Library, ty: char, t: string): (r: Option<Value>)
    requires ty == 's' || ty == 'n' || ty == 'd' || ty == 'u'
  {
    match ty
    case 's' => Some(Str(t))
    case 'n' => var (n, end) := Strtoul(t); if end < |t| then None else Some(Number(ToOff(n)))
    case 'd' => if lib.date(t).Some? then Some(Date(t)) else None
    case _ => if lib.uidset(t) then Some(Msgset(t)) else None
  }

  function ArgError(ty: char): string {
    match ty
    case 'n' => "Invalid number"
    case 'd' => "Bad date format"
    case _ => "Bogus number set"
  }

  datatype ArgParse = Args(args: seq<Node>, rest: seq<string>) | ArgFail(mesg: string)

  /** The argument loop of parse_simple_key. */
  function ParseArgs(lib: Library, types: string, ts: seq<string>): (r: ArgParse)
    requires forall i :: 0 <= i < |types| ==> types[i] == 's' || types[i] == 'n' || types[i] == 'd' || types[i] == 'u'
    ensures r.Args? ==> |r.rest| <= |ts| && MaxRank(r.rest) <= MaxRank(ts) && |r.args| == |types|
  {
    if types == [] then Args([], ts)
    else if ts == [] then ArgFail("Not enough arguments for criterion")
    else
      match ParseArg(lib, types[0], ts[0])
      case None => ArgFail(ArgError(types[0]))
      case Some(v) =>
        match ParseArgs(lib, types[1..], ts[1..])
        case ArgFail(e) => ArgFail(e)
        case Args(more, rest) => Args([ValueNode(v)] + more, rest)
  }

  function ParseSimple(lib: Library, ts: seq<string>): (r: Parse)
    requires ts != []
    ensures r.Tree? ==> |r.rest| < |ts| && MaxRank(r.rest) <= MaxRank(ts)
  {
    match KeywordOf(ts[0])
    case KCond(c) =>
      (match ParseArgs(lib, ArgTypes(c), ts[1..])
       case ArgFail(e) => Fail(Some(e))
       case Args(args, rest) => Tree(Call(KeyCond(c), args), rest))
    case _ =>
      match lib.msgset(ts[0])
      case SetOk => Tree(Call(KeyMsgset, [ValueNode(Msgset(ts[0]))]), ts[1..])
      case SetSyntax => Fail(Some("Unknown search criterion"))
      case SetNoent => Tree(False, ts[1..])
  }

  function Joined(left: Option<Node>, right: Node): Node {
    if left.None? then right else And(left.value, right)
  }

  /** parse_search_key_list: a left-nested AND of the keys up to a closing token */
  function ParseList(lib: Library, ts: seq<string>, left: Option<Node>): (r: Parse)
    ensures r.Tree? ==> |r.rest| <= |ts| && MaxRank(r.rest) <= MaxRank(ts)
    ensures r.Tree? ==> r.rest == [] || C0(r.rest[0]) == ')'
    decreases MaxRank(ts), |ts|, 1
  {
    if ts == [] || C0(ts[0]) == ')' then
      if left.None? then Fail(None) else Tree(left.value, ts)
    else
      match ParseKey(lib, ts)
      case Tree(right, rest) =>
        ParseList(lib, rest, Some(Joined(left, right)))
      case other => other
  }

  /** parse_search_key, with parse_equiv_key: a macro is parsed in a token buffer of
      its own, and the outer tokens go on behind it */
  function ParseKey(lib: Library, ts: seq<string>): (r: Parse)
    requires ts != []
    ensures r.Tree? ==> |r.rest| < |ts| && MaxRank(r.rest) <= MaxRank(ts)
    decreases MaxRank(ts), |ts|, 0
  {
    match KeywordOf(ts[0])
    case KOpen =>
      if |ts| == 1 then Fail(Some("Unexpected end of statement"))
      else
        (match ParseList(lib, ts[1..], None)
         case Tree(node, rest) =>
           if rest == [] then Crash
           else if rest[0] != ")" then Fail(Some("Unbalanced parenthesis"))
           else Tree(node, rest[1..])
         case other => other)
    case KAll => Tree(ValueNode(Number(1)), ts[1..])
    case KNot =>
      if |ts| == 1 then Fail(Some("Unexpected end of statement"))
      else
        (match ParseKey(lib, ts[1..])
         case Tree(node, rest) => Tree(Not(node), rest)
         case other => other)
    case KOr =>
      if |ts| == 1 then Fail(Some("Unexpected end of statement"))
      else
        (match ParseKey(lib, ts[1..])
         case Tree(l, rest) =>
           if rest == [] then Fail(Some("Too few args"))
           else
             (match ParseKey(lib, rest)
              case Tree(r, rest') => Tree(Or(l, r), rest')
              case other => other)
         case other => other)
    case KMacro(m) =>
      MacroTokensRank(m);
      assert MacroRank(m) <= MaxRank(ts);
      (match ParseList(lib, MacroTokens(m), None)
       case Tree(node, _) => Tree(node, ts[1..])
       case _ => Crash)
    case _ => ParseSimple(lib, ts)
  }

  /** The keys of a statement, as imap4d_search0 compiles them. */
  function Compile(lib: Library, ts: seq<string>): Parse {
    match ParseList(lib, ts, None)
    case Tree(node, rest) => if rest == [] then Tree(node, []) else Fail(Some("Junk at the end of statement"))
    case Fail(e) => Fail(Some(if e.Some? then e.value else "Parse error"))
    case Crash => Crash
  }

  // ---------- the statement ----------

  /** What imap4d_search0 does with a statement before it looks at any message. */
  datatype Statement = Ready(tree: Node) | Bad(text: string) | No(text: string) | Abort

  function Compiled(p: Parse): Statement {
    match p
    case Tree(node, _) => Ready(node)
    case Fail(e) => Bad(if e.Some? then e.value else "Parse error")
    case Crash => Abort
  }

  predicate IsCharset(ts: seq<string>) {
    ts != [] && EqNoCase(ts[0], "CHARSET")
  }

  /** The tokens of the keys. */
  function KeyTokens(ts: seq<string>): seq<string> {
    if IsCharset(ts) && |ts| > 1 then ts[2..] else ts
  }

  /** No character set is asked for, or one the library has. */
  predicate CharsetKnown(lib: Library, ts: seq<string>) {
    !IsCharset(ts) || (|ts| > 1 && (EqNoCase(ts[1], "US-ASCII") || lib.charset(ts[1])))
  }

  /** A token is compared with a word before it is known to be there. */
  predicate WordMissing(ts: seq<string>) {
    ts == [] || (IsCharset(ts) && |ts| == 1)
  }

  function Search0(lib: Library, ts: seq<string>): Statement {
    if WordMissing(ts) then Abort
    else if !CharsetKnown(lib, ts) then No("[BADCHARSET] Charset not supported")
    else Compiled(Compile(lib, KeyTokens(ts)))
  }
}
