/** The evaluator of compiled searches, with the C union it computes in, and what a
    query means for a message. */
module SearchEval {
  import opened Common
  import opened Search
  import opened SearchRoundTrip
  import opened SearchTrees

  // ---------- messages ----------

  const ATTR_ANSWERED: bv8 := 0x01
  const ATTR_FLAGGED: bv8 := 0x02
  const ATTR_DELETED: bv8 := 0x04
  const ATTR_DRAFT: bv8 := 0x08
  const ATTR_SEEN: bv8 := 0x10
  const ATTR_READ: bv8 := 0x20

  /** What a condition can ask of a message: whether a field of a given name holds a
      text, or one field after the other, or the body, or the sender of the envelope; and
      the days of the envelope and of its Date field, when there are such. */
  datatype Message = Message(
    msgno: nat,
    uid: nat,
    size: nat,
    flags: bv8,
    header: (string, string) -> bool,
    fields: seq<string -> bool>,
    body: string -> bool,
    sender: string -> bool,
    internal: Option<int>,
    sent: Option<int>)

  const SECS_PER_DAY: int := 86400

  /** mu_datetime_to_utc, for a date without a time */
  function Midnight(day: int): int {
    day * SECS_PER_DAY
  }

  /** _header_date: without a date it is the beginning of 1970 */
  function SentTime(msg: Message): int {
    if msg.sent.Some? then Midnight(msg.sent.value) else 0
  }

  /** The attribute bit of a flag name; `\Recent` and unknown names have none. */
  function FlagMask(item: string): bv8 {
    if EqNoCase(item, "\\Answered") then ATTR_ANSWERED
    else if EqNoCase(item, "\\Flagged") then ATTR_FLAGGED
    else if EqNoCase(item, "\\Deleted") then ATTR_DELETED
    else if EqNoCase(item, "\\Draft") then ATTR_DRAFT
    else if EqNoCase(item, "\\Seen") then ATTR_READ
    else 0
  }

  /** util_attribute_matches_flag */
  function MatchesFlag(flags: bv8, item: string): int {
    var mask := FlagMask(item);
    if mask == 0 then (if flags & ATTR_SEEN == 0 then 1 else 0) else (flags & mask) as int
  }

  // ---------- evaluation ----------

  function Truth(b: bool): Value {
    Number(if b then 1 else 0)
  }

  /** _scan_header_all: its fields are counted from one, up to below their number */
  predicate InFields(fields: seq<string -> bool>, s: string) {
    exists i :: 0 <= i < |fields| - 1 && fields[i](s)
  }

  method ScanHeaderAll(fields: seq<string -> bool>, s: string) returns (result: bool)
    ensures result <==> InFields(fields, s)
  {
    result := false;
    var i := 1;
    while !result && i < |fields|
      invariant 1 <= i && (i <= |fields| || i == 1)
      invariant !result ==> forall k :: 0 <= k < i - 1 ==> !fields[k](s)
      invariant result ==> InFields(fields, s)
    {
      result := fields[i - 1](s);
      i := i + 1;
    }
  }

  /** The instructions that look for a text. */
  predicate TextInstr(c: Cond, s: string, msg: Message) {
    match c
    case BCC => msg.header("Bcc", s)
    case CC => msg.header("Cc", s)
    case FROM => msg.sender(s) || msg.header("From", s)
    case SUBJECT => msg.header("Subject", s)
    case TO => msg.header("To", s)
    case BODY => msg.body(s)
    case TEXT => InFields(msg.fields, s) || msg.body(s)
    case _ => false
  }

  /** The instructions that compare times. */
  predicate DateInstr(c: Cond, t: int, msg: Message) {
    match c
    case BEFORE => msg.internal.Some? && Midnight(msg.internal.value) < t
    case ON => msg.internal.Some? && t <= Midnight(msg.internal.value) <= t + 86400
    case SINCE => msg.internal.Some? && Midnight(msg.internal.value) >= t
    case SENTBEFORE => SentTime(msg) < t
    case SENTON => t <= SentTime(msg) <= t + 86400
    case SENTSINCE => SentTime(msg) >= t
    case _ => false
  }

  /** One instruction on its evaluated arguments.  None when it would read a union
      member that was not the last one written, or an argument that is not there.  A UID
      set is parsed without a mailbox and so never translated, but it is asked for the
      number of the message; a bare set is translated from UIDs in a UID SEARCH. */
  function Instr(lib: Library, key: Key, args: seq<Value>, msg: Message): Option<Value> {
    match key
    case KeyMsgset =>
      if |args| >= 1 && args[0].Msgset?
      then Some(Truth(lib.inSet(args[0].set_, if lib.isuid then msg.uid else msg.msgno)))
      else None
    case KeyCond(c) =>
      match c
      case UID => if |args| >= 1 && args[0].Msgset? then Some(Truth(lib.inUids(args[0].set_, msg.msgno))) else None
      case KEYWORD => if |args| >= 1 && args[0].Str? then Some(Number(MatchesFlag(msg.flags, args[0].s))) else None
      case LARGER => if |args| >= 1 && args[0].Number? then Some(Truth(msg.size > Unsigned(args[0].n))) else None
      case SMALLER => if |args| >= 1 && args[0].Number? then Some(Truth(msg.size < Unsigned(args[0].n))) else None
      case HEADER =>
        if |args| >= 2 && args[0].Str? && args[1].Str? then Some(Truth(msg.header(args[0].s, args[1].s))) else None
      case BEFORE | ON | SENTBEFORE | SENTON | SENTSINCE | SINCE =>
        if |args| >= 1 && args[0].Date? && lib.date(args[0].d).Some?
        then Some(Truth(DateInstr(c, Midnight(lib.date(args[0].d).value), msg)))
        else None
      case _ => if |args| >= 1 && args[0].Str? then Some(Truth(TextInstr(c, args[0].s, msg))) else None
  }

  /** evaluate_node.  None when a number is read out of a value that is not one. */
  function Eval(lib: Library, node: Node, msg: Message): Option<Value>
    decreases node, 0
  {
    match node
    case Call(key, args) =>
      (match EvalArgs(lib, args, msg)
       case None => None
       case Some(vs) => Instr(lib, key, vs, msg))
    case And(l, r) =>
      (match EvalNumber(lib, l, msg)
       case None => None
       case Some(a) =>
         if a == 0 then Some(Number(0))
         else match EvalNumber(lib, r, msg)
              case None => None
              case Some(b) => Some(Number(b)))
    case Or(l, r) =>
      (match EvalNumber(lib, l, msg)
       case None => None
       case Some(a) =>
         if a != 0 then Some(Number(1))
         else match EvalNumber(lib, r, msg)
              case None => None
              case Some(b) => Some(Number(b)))
    case Not(p) =>
      (match EvalNumber(lib, p, msg)
       case None => None
       case Some(a) => Some(Truth(a == 0)))
    case ValueNode(v) => Some(v)
    case False => Some(Number(0))
  }

  function EvalNumber(lib: Library, node: Node, msg: Message): Option<int>
    decreases node, 1
  {
    match Eval(lib, node, msg)
    case Some(Number(n)) => Some(n)
    case _ => None
  }

  function EvalArgs(lib: Library, args: seq<Node>, msg: Message): Option<seq<Value>>
    decreases args, 0
  {
    if args == [] then Some([])
    else
      match Eval(lib, args[0], msg)
      case None => None
      case Some(v) =>
        match EvalArgs(lib, args[1..], msg)
        case None => None
        case Some(vs) => Some([v] + vs)
  }

  // ---------- what a query means ----------

  predicate HasFlag(msg: Message, flag: bv8) {
    msg.flags & flag != 0
  }

  predicate Recent(msg: Message) {
    !HasFlag(msg, ATTR_SEEN)
  }

  /** The flag keys of section 6.4.4 of RFC 3501. */
  predicate MacroMatches(m: Macro, msg: Message)
    requires m != UNKEYWORD
  {
    match m
    case ANSWERED => HasFlag(msg, ATTR_ANSWERED)
    case DELETED => HasFlag(msg, ATTR_DELETED)
    case DRAFT => HasFlag(msg, ATTR_DRAFT)
    case FLAGGED => HasFlag(msg, ATTR_FLAGGED)
    case SEEN => HasFlag(msg, ATTR_READ)
    case RECENT => Recent(msg)
    case OLD => !Recent(msg)
    case NEW => Recent(msg) && !HasFlag(msg, ATTR_READ)
    case UNANSWERED => !HasFlag(msg, ATTR_ANSWERED)
    case UNDELETED => !HasFlag(msg, ATTR_DELETED)
    case UNDRAFT => !HasFlag(msg, ATTR_DRAFT)
    case UNFLAGGED => !HasFlag(msg, ATTR_FLAGGED)
    case UNSEEN => !HasFlag(msg, ATTR_READ)
  }

  /** KEYWORD looks a system flag up; any other name counts as \Recent. */
  predicate KeywordMatches(name: string, msg: Message) {
    if FlagMask(name) == 0 then Recent(msg) else HasFlag(msg, FlagMask(name))
  }

  /** The day a date key compares with: that of the envelope, or that of the Date field,
      which is the first of 1970 when there is none. */
  predicate DayMatches(c: Cond, day: int, msg: Message) {
    var sent := if msg.sent.Some? then msg.sent.value else 0;
    match c
    case BEFORE => msg.internal.Some? && msg.internal.value < day
    case ON => msg.internal == Some(day) || msg.internal == Some(day + 1)
    case SINCE => msg.internal.Some? && day <= msg.internal.value
    case SENTBEFORE => sent < day
    case SENTON => sent == day || sent == day + 1
    case SENTSINCE => day <= sent
    case _ => false
  }

  predicate CondMatches(lib: Library, c: Cond, args: seq<string>, msg: Message)
    requires GoodArgs(lib, ArgTypes(c), args)
  {
    match c
    case UID => lib.inUids(args[0], msg.uid)
    case KEYWORD => KeywordMatches(args[0], msg)
    case LARGER => msg.size > Strtoul(args[0]).0
    case SMALLER => msg.size < Strtoul(args[0]).0
    case HEADER => msg.header(args[0], args[1])
    case BEFORE | ON | SENTBEFORE | SENTON | SENTSINCE | SINCE =>
      assert ParseArg(lib, ArgTypes(c)[0], args[0]).Some?;
      DayMatches(c, lib.date(args[0]).value, msg)
    case _ => TextInstr(c, args[0], msg)
  }

  /** Which messages a query selects.  As in section 6.4.4 of RFC 3501, a bare set holds
      message numbers and the UID key holds UIDs, in SEARCH and in UID SEARCH; where the
      date and KEYWORD tests differ from it is said by `DatesExact` and `KeywordExact`. */
  predicate Matches(lib: Library, q: Query, msg: Message)
    requires Good(lib, q)
  {
    match q
    case QAll(_) => true
    case QNot(_, p) => !Matches(lib, p, msg)
    case QOr(_, l, r) => Matches(lib, l, msg) || Matches(lib, r, msg)
    case QGroup(keys) => MatchesAll(lib, keys, msg)
    case QMacro(m, _) => MacroMatches(m, msg)
    case QCond(c, _, args) => CondMatches(lib, c, args, msg)
    case QSet(text) => lib.msgset(text) == SetOk && lib.inSet(text, msg.msgno)
  }

  predicate MatchesAll(lib: Library, keys: seq<Query>, msg: Message)
    requires GoodAll(lib, keys)
  {
    keys == [] || (Matches(lib, keys[0], msg) && MatchesAll(lib, keys[1..], msg))
  }

  /** The message as the sets of the source take it: UID keys are asked for its number,
      and the bare sets of a UID SEARCH for its UID. */
  function AsRead(lib: Library, msg: Message): Message {
    msg.(uid := msg.msgno, msgno := if lib.isuid then msg.uid else msg.msgno)
  }

  // ---------- the meaning of a tree ----------

  /** The boolean reading of a tree: no short circuits, no numbers. */
  ghost predicate Meaning(lib: Library, node: Node, msg: Message) {
    match node
    case Call(key, args) => CallMeaning(lib, key, args, msg)
    case And(l, r) => Meaning(lib, l, msg) && Meaning(lib, r, msg)
    case Or(l, r) => Meaning(lib, l, msg) || Meaning(lib, r, msg)
    case Not(p) => !Meaning(lib, p, msg)
    case ValueNode(v) => v.Number? && v.n != 0
    case False => false
  }

  ghost predicate CallMeaning(lib: Library, key: Key, args: seq<Node>, msg: Message) {
    && (forall i :: 0 <= i < |args| ==> args[i].ValueNode?)
    && var vs := Values(args);
       var r := Instr(lib, key, vs, msg);
       r.Some? && r.value.Number? && r.value.n != 0
  }

  ghost function Values(args: seq<Node>): seq<Value>
    requires forall i :: 0 <= i < |args| ==> args[i].ValueNode?
  {
    seq(|args|, i requires 0 <= i < |args| => args[i].v)
  }

  lemma {:induction false} ArgsEval(lib: Library, args: seq<Node>, msg: Message)
    requires forall i :: 0 <= i < |args| ==> args[i].ValueNode?
    ensures EvalArgs(lib, args, msg) == Some(Values(args))
  {
    if args != [] {
      ArgsEval(lib, args[1..], msg);
      assert Values(args) == [args[0].v] + Values(args[1..]);
    }
  }

  lemma InstrTyped(lib: Library, c: Cond, vs: seq<Value>, msg: Message)
    requires |vs| == |ArgTypes(c)| && forall i :: 0 <= i < |vs| ==> WellTyped(lib, ArgTypes(c)[i], vs[i])
    ensures Instr(lib, KeyCond(c), vs, msg).Some? && Instr(lib, KeyCond(c), vs, msg).value.Number?
  {
    hide MatchesFlag;
    assert WellTyped(lib, ArgTypes(c)[0], vs[0]);
    if |vs| == 2 {
      assert WellTyped(lib, ArgTypes(c)[1], vs[1]);
    }
  }

  lemma CallNumber(lib: Library, key: Key, args: seq<Node>, msg: Message)
    requires WellFormed(lib, Call(key, args))
    ensures EvalNumber(lib, Call(key, args), msg).Some?
    ensures EvalNumber(lib, Call(key, args), msg).value != 0 <==> CallMeaning(lib, key, args, msg)
  {
    hide ArgTypes, WellTyped, Instr;
    ArgsEval(lib, args, msg);
    if key.KeyCond? {
      InstrTyped(lib, key.c, Values(args), msg);
    } else {
      SetNumber(lib, Values(args), msg);
    }
  }

  lemma SetNumber(lib: Library, vs: seq<Value>, msg: Message)
    requires |vs| == 1 && vs[0].Msgset?
    ensures Instr(lib, KeyMsgset, vs, msg).Some? && Instr(lib, KeyMsgset, vs, msg).value.Number?
  {
  }

  /** Every tree the parser can return evaluates to a number, so that the abort after
      evaluation cannot happen; and the short-circuit result is nonzero exactly when
      the boolean meaning holds. */
  lemma {:induction false} EvalMeaning(lib: Library, node: Node, msg: Message)
    requires WellFormed(lib, node)
    ensures EvalNumber(lib, node, msg).Some?
    ensures EvalNumber(lib, node, msg).value != 0 <==> Meaning(lib, node, msg)
  {
    match node {
      case Call(key, args) => CallNumber(lib, key, args, msg);
      case And(l, r) =>
        EvalMeaning(lib, l, msg);
        EvalMeaning(lib, r, msg);
      case Or(l, r) =>
        EvalMeaning(lib, l, msg);
        EvalMeaning(lib, r, msg);
      case Not(p) => EvalMeaning(lib, p, msg);
      case _ =>
    }
  }

  // ---------- the tree of a query means the query ----------

  lemma MaskNumber(flags: bv8, mask: bv8)
    ensures (flags & mask) as int != 0 <==> flags & mask != 0
  {
  }

  lemma FlagNumber(name: string, msg: Message)
    ensures MatchesFlag(msg.flags, name) != 0 <==> KeywordMatches(name, msg)
  {
    hide FlagMask;
    MaskNumber(msg.flags, FlagMask(name));
  }

  /** Reading it otherwise leaves the flags of a message alone. */
  lemma SameFlags(lib: Library, msg: Message, name: string, m: Macro)
    ensures KeywordMatches(name, AsRead(lib, msg)) <==> KeywordMatches(name, msg)
    ensures m != UNKEYWORD ==> (MacroMatches(m, AsRead(lib, msg)) <==> MacroMatches(m, msg))
  {
    hide FlagMask;
  }

  lemma SystemMasks()
    ensures FlagMask("\\Answered") == ATTR_ANSWERED && FlagMask("\\Flagged") == ATTR_FLAGGED
    ensures FlagMask("\\Deleted") == ATTR_DELETED && FlagMask("\\Draft") == ATTR_DRAFT
    ensures FlagMask("\\Seen") == ATTR_READ && FlagMask("\\Recent") == 0
  {
    assert Fold("\\Flagged")[1] == 'F' && Fold("\\Deleted")[1] == 'D';
  }

  lemma WrapCompare(n: nat)
    requires n <= ULONG_MAX
    ensures Unsigned(ToOff(n)) == n
  {
  }

  /** The arguments of a call as they were parsed. */
  lemma ArgValues(lib: Library, c: Cond, args: seq<string>)
    requires GoodArgs(lib, ArgTypes(c), args)
    ensures var vs := Values(BuildArgs(lib, ArgTypes(c), args));
            |vs| == |args| == |ArgTypes(c)|
            && forall i :: 0 <= i < |vs| ==> vs[i] == ParseArg(lib, ArgTypes(c)[i], args[i]).value
  {
    hide ParseArg, ArgTypes;
  }

  lemma SizeMeaning(lib: Library, c: Cond, args: seq<string>, msg: Message)
    requires GoodArgs(lib, ArgTypes(c), args) && (c == LARGER || c == SMALLER || c == UID)
    ensures CallMeaning(lib, KeyCond(c), BuildArgs(lib, ArgTypes(c), args), msg) <==>
              CondMatches(lib, c, args, AsRead(lib, msg))
  {
    hide Values, BuildArgs, Strtoul, ToOff, Unsigned;
    ArgNodes(lib, c, args);
    ArgValues(lib, c, args);
    if c != UID {
      WrapCompare(Strtoul(args[0]).0);
    }
  }

  lemma ArgNodes(lib: Library, c: Cond, args: seq<string>)
    requires GoodArgs(lib, ArgTypes(c), args)
    ensures var nodes := BuildArgs(lib, ArgTypes(c), args);
            forall i :: 0 <= i < |nodes| ==> nodes[i].ValueNode?
  {
    hide ParseArg, ArgTypes;
  }

  lemma DateMeaning(lib: Library, c: Cond, args: seq<string>, msg: Message)
    requires GoodArgs(lib, ArgTypes(c), args) && ArgTypes(c) == "d"
    ensures CallMeaning(lib, KeyCond(c), BuildArgs(lib, ArgTypes(c), args), msg) <==>
              CondMatches(lib, c, args, AsRead(lib, msg))
  {
    hide Values, BuildArgs;
    ArgNodes(lib, c, args);
    ArgValues(lib, c, args);
    assert ParseArg(lib, 'd', args[0]).Some?;
    DayInstr(c, lib.date(args[0]).value, AsRead(lib, msg));
    SameDates(lib, c, lib.date(args[0]).value, msg);
  }

  /** The times are compared as the days are. */
  lemma DayInstr(c: Cond, day: int, msg: Message)
    ensures DateInstr(c, Midnight(day), msg) <==> DayMatches(c, day, msg)
  {
  }

  lemma SameDates(lib: Library, c: Cond, day: int, msg: Message)
    ensures DateInstr(c, Midnight(day), AsRead(lib, msg)) <==> DateInstr(c, Midnight(day), msg)
  {
  }

  lemma TextMeaning(lib: Library, c: Cond, args: seq<string>, msg: Message)
    requires GoodArgs(lib, ArgTypes(c), args) && (ArgTypes(c) == "s" || ArgTypes(c) == "ss")
    ensures CallMeaning(lib, KeyCond(c), BuildArgs(lib, ArgTypes(c), args), msg) <==>
              CondMatches(lib, c, args, AsRead(lib, msg))
  {
    hide Values, BuildArgs, MatchesFlag, KeywordMatches, TextInstr;
    ArgNodes(lib, c, args);
    ArgValues(lib, c, args);
    if c == KEYWORD {
      FlagNumber(args[0], msg);
      SameFlags(lib, msg, args[0], NEW);
    } else if c != HEADER {
      SameTexts(lib, c, args[0], msg);
    }
  }

  lemma SameTexts(lib: Library, c: Cond, s: string, msg: Message)
    ensures TextInstr(c, s, AsRead(lib, msg)) <==> TextInstr(c, s, msg)
  {
  }

  lemma CondMeaning(lib: Library, c: Cond, args: seq<string>, msg: Message)
    requires GoodArgs(lib, ArgTypes(c), args)
    ensures CallMeaning(lib, KeyCond(c), BuildArgs(lib, ArgTypes(c), args), msg) <==>
              CondMatches(lib, c, args, AsRead(lib, msg))
  {
    hide CallMeaning, CondMatches, BuildArgs, GoodArgs, AsRead;
    if c == LARGER || c == SMALLER || c == UID {
      SizeMeaning(lib, c, args, msg);
    } else if ArgTypes(c) == "d" {
      DateMeaning(lib, c, args, msg);
    } else {
      TextMeaning(lib, c, args, msg);
    }
  }

  lemma FlagMeaning(lib: Library, name: string, msg: Message)
    ensures Good(lib, Flag(name)) && (Meaning(lib, Build(lib, Flag(name)), msg) <==> KeywordMatches(name, msg))
  {
    hide KeywordMatches, CondMatches;
    CondMeaning(lib, KEYWORD, [name], msg);
    KeywordCond(lib, [name], AsRead(lib, msg));
    SameFlags(lib, msg, name, NEW);
  }

  lemma KeywordCond(lib: Library, args: seq<string>, msg: Message)
    requires GoodArgs(lib, ArgTypes(KEYWORD), args)
    ensures CondMatches(lib, KEYWORD, args, msg) <==> KeywordMatches(args[0], msg)
  {
  }

  /** A key that expands to one KEYWORD test. */
  lemma PlainMeaning(lib: Library, m: Macro, msg: Message)
    requires m != UNKEYWORD && Expansion(m).QCond?
    ensures Meaning(lib, MacroTree(lib, m), msg) <==> MacroMatches(m, msg)
  {
    hide FlagMask, Build, Meaning;
    SystemMasks();
    MacroTreeIs(lib, m);
    FlagMeaning(lib, Expansion(m).args[0], msg);
  }

  lemma NegatedMeaning(lib: Library, n: Macro, k: Macro, msg: Message)
    requires Negates(n, k)
    ensures Meaning(lib, MacroTree(lib, n), msg) <==> MacroMatches(n, msg)
  {
    hide MacroTree, Build;
    MacroTrees(lib);
    PlainMeaning(lib, k, msg);
  }

  /** What a macro key selects is what section 6.4.4 of RFC 3501 says of it. */
  lemma MacroMeaning(lib: Library, m: Macro, msg: Message)
    requires m != UNKEYWORD
    ensures Meaning(lib, MacroTree(lib, m), msg) <==> MacroMatches(m, msg)
  {
    hide MacroTree, Negates, Build, FlagMask;
    NegatedKeys();
    match m {
      case UNANSWERED => NegatedMeaning(lib, m, ANSWERED, msg);
      case UNDELETED => NegatedMeaning(lib, m, DELETED, msg);
      case UNDRAFT => NegatedMeaning(lib, m, DRAFT, msg);
      case UNFLAGGED => NegatedMeaning(lib, m, FLAGGED, msg);
      case UNSEEN => NegatedMeaning(lib, m, SEEN, msg);
      case OLD => NegatedMeaning(lib, m, RECENT, msg);
      case NEW =>
        NewTree(lib);
        PlainMeaning(lib, RECENT, msg);
        NegatedMeaning(lib, UNSEEN, SEEN, msg);
      case _ => PlainMeaning(lib, m, msg);
    }
  }

  lemma NegatedKeys()
    ensures Negates(UNANSWERED, ANSWERED) && Negates(UNDELETED, DELETED) && Negates(UNDRAFT, DRAFT)
    ensures Negates(UNFLAGGED, FLAGGED) && Negates(UNSEEN, SEEN) && Negates(OLD, RECENT)
  {
  }

  lemma AnySpelling(lib: Library, m: Macro, name: string)
    requires Good(lib, QMacro(m, name))
    ensures Build(lib, QMacro(m, name)) == MacroTree(lib, m)
  {
    MacroTreeIs(lib, m);
  }

  /** The tree of a query selects the messages that match the query as they are read. */
  lemma {:induction false} BuildMeaning(lib: Library, q: Query, msg: Message)
    requires Good(lib, q)
    ensures Meaning(lib, Build(lib, q), msg) <==> Matches(lib, q, AsRead(lib, msg))
    decreases Depth(q), q, 0
  {
    hide KeywordMatches, CondMatches, CallMeaning, MacroMatches;
    match q {
      case QNot(_, p) => BuildMeaning(lib, p, msg);
      case QOr(_, l, r) =>
        BuildMeaning(lib, l, msg);
        BuildMeaning(lib, r, msg);
      case QGroup(keys) =>
        assert GoodAll(lib, keys) && DepthAll(keys) == Depth(q);
        BuildMeaning(lib, keys[0], msg);
        BuildAllMeaning(lib, keys[1..], Build(lib, keys[0]), msg);
      case QMacro(m, name) =>
        AnySpelling(lib, m, name);
        MacroMeaning(lib, m, msg);
        SameFlags(lib, msg, name, m);
      case QCond(c, _, args) => CondMeaning(lib, c, args, msg);
      case QSet(text) => SetMeaning(lib, text, msg);
      case QAll(_) =>
    }
  }

  lemma SetMeaning(lib: Library, text: string, msg: Message)
    ensures CallMeaning(lib, KeyMsgset, [ValueNode(Msgset(text))], msg) <==> lib.inSet(text, AsRead(lib, msg).msgno)
  {
    assert Values([ValueNode(Msgset(text))]) == [Msgset(text)];
  }

  lemma {:induction false} BuildAllMeaning(lib: Library, keys: seq<Query>, left: Node, msg: Message)
    requires GoodAll(lib, keys)
    ensures Meaning(lib, BuildAll(lib, keys, left), msg) <==>
              Meaning(lib, left, msg) && MatchesAll(lib, keys, AsRead(lib, msg))
    decreases DepthAll(keys), keys, 1
  {
    hide Build, Good, Matches;
    if keys != [] {
      BuildMeaning(lib, keys[0], msg);
      BuildAllMeaning(lib, keys[1..], And(left, Build(lib, keys[0])), msg);
    }
  }

  // ---------- whole searches ----------

  /** The tree that a SEARCH command compiles to selects exactly the messages that match
      every key as they are read; `SetsExact` says when that is what the keys mean. */
  lemma SearchSelects(lib: Library, keys: seq<Query>, msg: Message)
    requires keys != [] && GoodAll(lib, keys)
    ensures Compile(lib, TokensOfAll(keys)).Tree?
    ensures var tree := Compile(lib, TokensOfAll(keys)).node;
            EvalNumber(lib, tree, msg).Some?
              && (EvalNumber(lib, tree, msg).value != 0 <==> MatchesAll(lib, keys, AsRead(lib, msg)))
  {
    hide ParseList, TokensOfAll, Build, Good, Matches, Meaning, EvalNumber;
    CompileKeys(lib, keys);
    NeverAborts(lib, TokensOfAll(keys), msg);
    BuildMeaning(lib, keys[0], msg);
    BuildAllMeaning(lib, keys[1..], Build(lib, keys[0]), msg);
  }

  /** Whatever compiles, evaluates to a number that tells its meaning. */
  lemma NeverAborts(lib: Library, ts: seq<string>, msg: Message)
    requires Compile(lib, ts).Tree?
    ensures WellFormed(lib, Compile(lib, ts).node)
    ensures var tree := Compile(lib, ts).node;
            EvalNumber(lib, tree, msg).Some? && (EvalNumber(lib, tree, msg).value != 0 <==> Meaning(lib, tree, msg))
  {
    hide ParseList, WellFormed, EvalNumber, Meaning;
    ListWellFormed(lib, ts, None);
    EvalMeaning(lib, Compile(lib, ts).node, msg);
  }

  /** A flag test as RFC 3501 defines it, for a server that stores no keywords. */
  predicate FlagSet(name: string, msg: Message) {
    if EqNoCase(name, "\\Recent") then Recent(msg) else FlagMask(name) != 0 && HasFlag(msg, FlagMask(name))
  }

  /** KEYWORD is right for the system flags, and wrong for every other name: such a
      key selects the recent messages instead of none. */
  lemma KeywordExact(name: string)
    ensures (forall msg :: KeywordMatches(name, msg) <==> FlagSet(name, msg))
       <==> FlagMask(name) != 0 || EqNoCase(name, "\\Recent")
  {
    hide FlagMask;
    SystemMasks();
    RecentMask(name);
    var fresh_ := Message(1, 1, 0, 0, (h, s) => false, [], s => false, s => false, None, None);
    assert Recent(fresh_) by { NoFlags(fresh_); }
    assert KeywordMatches(name, fresh_) <==> FlagMask(name) == 0 by { NoFlags(fresh_); }
  }

  lemma NoFlags(msg: Message)
    requires msg.flags == 0
    ensures forall flag :: !HasFlag(msg, flag)
  {
  }

  lemma RecentMask(name: string)
    ensures EqNoCase(name, "\\Recent") ==> FlagMask(name) == 0
  {
    SystemMasks();
    assert EqNoCase(name, "\\Recent") ==> FlagMask(name) == FlagMask("\\Recent");
  }

  /** The numbers of the first `n` messages that can be read and that match. */
  ghost function Selected(lib: Library, tree: Node, mailbox: seq<Option<Message>>, n: nat): (r: seq<nat>)
    requires n <= |mailbox|
    ensures forall k :: 0 <= k < |r| ==> 1 <= r[k] <= n
  {
    if n == 0 then []
    else if mailbox[n - 1].Some? && Meaning(lib, tree, mailbox[n - 1].value)
    then Selected(lib, tree, mailbox, n - 1) + [n]
    else Selected(lib, tree, mailbox, n - 1)
  }

  /** All of them, once each, in ascending order. */
  lemma {:induction false} SelectedAll(lib: Library, tree: Node, mailbox: seq<Option<Message>>, n: nat)
    requires n <= |mailbox|
    ensures forall i :: i in Selected(lib, tree, mailbox, n)
                   <==> 1 <= i <= n && mailbox[i - 1].Some? && Meaning(lib, tree, mailbox[i - 1].value)
    ensures forall j, k :: 0 <= j < k < |Selected(lib, tree, mailbox, n)| ==>
              Selected(lib, tree, mailbox, n)[j] < Selected(lib, tree, mailbox, n)[k]
  {
    hide Meaning;
    if n > 0 {
      SelectedAll(lib, tree, mailbox, n - 1);
    }
  }

  /** The number or UID that stands for a message in the response. */
  function Reported(mailbox: seq<Option<Message>>, msgno: nat, isuid: bool): nat
    requires 1 <= msgno <= |mailbox|
  {
    if isuid && mailbox[msgno - 1].Some? then mailbox[msgno - 1].value.uid else msgno
  }

  /** search_run */
  method SearchRun(lib: Library, tree: Node, msg: Message) returns (r: bool)
    requires WellFormed(lib, tree)
    ensures r <==> Meaning(lib, tree, msg)
  {
    EvalMeaning(lib, tree, msg);
    var value := Eval(lib, tree, msg);
    assert value.Some? && value.value.Number?;
    r := value.value.n != 0;
  }

  /** do_search; a message that cannot be fetched is None */
  method DoSearch(lib: Library, tree: Node, mailbox: seq<Option<Message>>) returns (out: seq<nat>)
    requires WellFormed(lib, tree)
    requires forall i :: 0 <= i < |mailbox| && mailbox[i].Some? ==> mailbox[i].value.msgno == i + 1
    ensures |out| == |Selected(lib, tree, mailbox, |mailbox|)|
    ensures forall k :: 0 <= k < |out| ==>
              out[k] == Reported(mailbox, Selected(lib, tree, mailbox, |mailbox|)[k], lib.isuid)
  {
    hide WellFormed, Meaning, Selected;
    out := [];
    SelectedNone(lib, tree, mailbox);
    for msgno := 1 to |mailbox| + 1
      invariant |out| == |Selected(lib, tree, mailbox, msgno - 1)|
      invariant forall k :: 0 <= k < |out| ==>
                out[k] == Reported(mailbox, Selected(lib, tree, mailbox, msgno - 1)[k], lib.isuid)
    {
      SelectedNext(lib, tree, mailbox, msgno);
      if mailbox[msgno - 1].Some? {
        var msg := mailbox[msgno - 1].value;
        var run := SearchRun(lib, tree, msg);
        if run {
          out := out + [if lib.isuid then msg.uid else msgno];
        }
      }
    }
  }

  lemma SelectedNone(lib: Library, tree: Node, mailbox: seq<Option<Message>>)
    ensures Selected(lib, tree, mailbox, 0) == []
  {
  }

  lemma SelectedNext(lib: Library, tree: Node, mailbox: seq<Option<Message>>, n: nat)
    requires 1 <= n <= |mailbox|
    ensures Selected(lib, tree, mailbox, n) == Selected(lib, tree, mailbox, n - 1)
              + if mailbox[n - 1].Some? && Meaning(lib, tree, mailbox[n - 1].value) then [n] else []
  {
    hide Meaning;
  }

  // ---------- numbers and UIDs ----------

  /** In the sets of the library a single number denotes itself. */
  ghost predicate Singles(lib: Library) {
    forall k: nat :: 0 < k <= ULONG_MAX ==>
      lib.uidset(Dec(k)) && forall n: nat :: lib.inUids(Dec(k), n) <==> n == k
  }

  /** Whether a query is true to section 6.4.4 of RFC 3501 for a message. */
  predicate TrueTo(lib: Library, q: Query, msg: Message)
    requires Good(lib, q)
  {
    Matches(lib, q, AsRead(lib, msg)) <==> Matches(lib, q, msg)
  }

  /** A query that asks for one UID. */
  function UidQuery(n: nat): Query {
    QCond(UID, "UID", [Dec(n)])
  }

  lemma UidQueryGood(lib: Library, n: nat, msg: Message)
    requires lib.uidset(Dec(n))
    ensures Good(lib, UidQuery(n)) && (Matches(lib, UidQuery(n), msg) <==> lib.inUids(Dec(n), msg.uid))
  {
    assert ArgTypes(UID) == "u";
  }

  /** All queries are true to the standard for a message if and only if its UID is its
      number. */
  lemma SetsExact(lib: Library, msg: Message)
    requires Singles(lib) && 0 < msg.uid <= ULONG_MAX
    ensures (forall q | Good(lib, q) :: TrueTo(lib, q, msg)) <==> msg.uid == msg.msgno
  {
    hide Good, Matches, UidQuery;
    UidQueryGood(lib, msg.uid, msg);
    UidQueryGood(lib, msg.uid, AsRead(lib, msg));
    if msg.uid == msg.msgno {
      assert AsRead(lib, msg) == msg;
    } else {
      assert !TrueTo(lib, UidQuery(msg.uid), msg);
    }
  }

  /** Whether a query asks for UIDs, or in a UID SEARCH for message numbers. */
  predicate AsksNumbers(q: Query, isuid: bool) {
    match q
    case QNot(_, p) => AsksNumbers(p, isuid)
    case QOr(_, l, r) => AsksNumbers(l, isuid) || AsksNumbers(r, isuid)
    case QGroup(keys) => AnyAsksNumbers(keys, isuid)
    case QCond(c, _, _) => c == UID
    case QSet(_) => isuid
    case _ => false
  }

  predicate AnyAsksNumbers(keys: seq<Query>, isuid: bool) {
    keys != [] && (AsksNumbers(keys[0], isuid) || AnyAsksNumbers(keys[1..], isuid))
  }

  /** A query that asks for neither is true to the standard for every message. */
  lemma {:induction false} OthersTrue(lib: Library, q: Query, msg: Message)
    requires Good(lib, q) && !AsksNumbers(q, lib.isuid)
    ensures TrueTo(lib, q, msg)
  {
    hide MacroMatches, CondMatches;
    match q {
      case QNot(_, p) => OthersTrue(lib, p, msg);
      case QOr(_, l, r) =>
        OthersTrue(lib, l, msg);
        OthersTrue(lib, r, msg);
      case QGroup(keys) =>
        assert GoodAll(lib, keys);
        AllOthersTrue(lib, keys, msg);
      case QCond(c, _, args) => CondTrue(lib, c, args, msg);
      case QMacro(m, name) => SameFlags(lib, msg, name, m);
      case _ =>
    }
  }

  lemma CondTrue(lib: Library, c: Cond, args: seq<string>, msg: Message)
    requires c != UID && GoodArgs(lib, ArgTypes(c), args)
    ensures CondMatches(lib, c, args, AsRead(lib, msg)) <==> CondMatches(lib, c, args, msg)
  {
    hide FlagMask, Strtoul;
  }

  lemma {:induction false} AllOthersTrue(lib: Library, keys: seq<Query>, msg: Message)
    requires GoodAll(lib, keys) && !AnyAsksNumbers(keys, lib.isuid)
    ensures MatchesAll(lib, keys, AsRead(lib, msg)) <==> MatchesAll(lib, keys, msg)
  {
    if keys != [] {
      OthersTrue(lib, keys[0], msg);
      AllOthersTrue(lib, keys[1..], msg);
    }
  }

  /** SEARCH UID 2 does not find the first message of a mailbox whose UID is 2. */
  lemma UidMissed(lib: Library, msg: Message)
    requires Singles(lib) && !lib.isuid && msg.msgno == 1 && msg.uid == 2
    ensures Good(lib, UidQuery(2)) && Matches(lib, UidQuery(2), msg) && !Meaning(lib, Build(lib, UidQuery(2)), msg)
  {
    hide Good, Matches, UidQuery, Build, Meaning;
    UidQueryGood(lib, 2, msg);
    UidQueryGood(lib, 2, AsRead(lib, msg));
    BuildMeaning(lib, UidQuery(2), msg);
  }
}
