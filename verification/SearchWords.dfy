/** SEARCH from the words the client writes: which key each word is, and which messages
    the server selects when a statement is that key. */
module SearchWords {
  import opened Common
  import opened Search
  import opened SearchEval
  import opened SearchGrammar
  import opened SearchRoundTrip

  // ---------- the words of the tables ----------

  lemma Word(t: string, k: Keyword, word: string)
    requires k != KOther && k != KOpen && NameOf(k) == word
    ensures KeywordOf(t) == k <==> EqNoCase(t, word)
  {
    hide NameOf, KeywordOf;
    SpelledSo(t);
    if EqNoCase(t, word) {
      Recognised(k, t);
    }
  }

  /** The words that the parser compares itself. */
  lemma ReservedWords(t: string)
    ensures KeywordOf(t) == KAll <==> EqNoCase(t, "ALL")
    ensures KeywordOf(t) == KNot <==> EqNoCase(t, "NOT")
    ensures KeywordOf(t) == KOr <==> EqNoCase(t, "OR")
  {
    hide KeywordOf, EqNoCase;
    Word(t, KAll, "ALL");
    Word(t, KNot, "NOT");
    Word(t, KOr, "OR");
  }

  /** Section 6.4.4 of RFC 3501: the keys that look for text. */
  lemma TextWords(t: string)
    ensures KeywordOf(t) == KCond(BCC) <==> EqNoCase(t, "BCC")
    ensures KeywordOf(t) == KCond(BODY) <==> EqNoCase(t, "BODY")
    ensures KeywordOf(t) == KCond(CC) <==> EqNoCase(t, "CC")
    ensures KeywordOf(t) == KCond(FROM) <==> EqNoCase(t, "FROM")
    ensures KeywordOf(t) == KCond(HEADER) <==> EqNoCase(t, "HEADER")
    ensures KeywordOf(t) == KCond(SUBJECT) <==> EqNoCase(t, "SUBJECT")
    ensures KeywordOf(t) == KCond(TEXT) <==> EqNoCase(t, "TEXT")
    ensures KeywordOf(t) == KCond(TO) <==> EqNoCase(t, "TO")
  {
    hide KeywordOf, EqNoCase;
    Word(t, KCond(BCC), "BCC");
    Word(t, KCond(BODY), "BODY");
    Word(t, KCond(CC), "CC");
    Word(t, KCond(FROM), "FROM");
    Word(t, KCond(HEADER), "HEADER");
    Word(t, KCond(SUBJECT), "SUBJECT");
    Word(t, KCond(TEXT), "TEXT");
    Word(t, KCond(TO), "TO");
  }

  /** The keys that ask for dates. */
  lemma DateWords(t: string)
    ensures KeywordOf(t) == KCond(BEFORE) <==> EqNoCase(t, "BEFORE")
    ensures KeywordOf(t) == KCond(ON) <==> EqNoCase(t, "ON")
    ensures KeywordOf(t) == KCond(SINCE) <==> EqNoCase(t, "SINCE")
    ensures KeywordOf(t) == KCond(SENTBEFORE) <==> EqNoCase(t, "SENTBEFORE")
    ensures KeywordOf(t) == KCond(SENTON) <==> EqNoCase(t, "SENTON")
    ensures KeywordOf(t) == KCond(SENTSINCE) <==> EqNoCase(t, "SENTSINCE")
  {
    hide KeywordOf, EqNoCase;
    Word(t, KCond(BEFORE), "BEFORE");
    Word(t, KCond(ON), "ON");
    Word(t, KCond(SINCE), "SINCE");
    Word(t, KCond(SENTBEFORE), "SENTBEFORE");
    Word(t, KCond(SENTON), "SENTON");
    Word(t, KCond(SENTSINCE), "SENTSINCE");
  }

  /** The keys that ask for sizes, UIDs and keywords. */
  lemma OtherWords(t: string)
    ensures KeywordOf(t) == KCond(LARGER) <==> EqNoCase(t, "LARGER")
    ensures KeywordOf(t) == KCond(SMALLER) <==> EqNoCase(t, "SMALLER")
    ensures KeywordOf(t) == KCond(UID) <==> EqNoCase(t, "UID")
    ensures KeywordOf(t) == KCond(KEYWORD) <==> EqNoCase(t, "KEYWORD")
  {
    hide KeywordOf, EqNoCase;
    Word(t, KCond(LARGER), "LARGER");
    Word(t, KCond(SMALLER), "SMALLER");
    Word(t, KCond(UID), "UID");
    Word(t, KCond(KEYWORD), "KEYWORD");
  }

  /** The flag keys. */
  lemma FlagWords(t: string)
    ensures KeywordOf(t) == KMacro(ANSWERED) <==> EqNoCase(t, "ANSWERED")
    ensures KeywordOf(t) == KMacro(DELETED) <==> EqNoCase(t, "DELETED")
    ensures KeywordOf(t) == KMacro(DRAFT) <==> EqNoCase(t, "DRAFT")
    ensures KeywordOf(t) == KMacro(FLAGGED) <==> EqNoCase(t, "FLAGGED")
    ensures KeywordOf(t) == KMacro(NEW) <==> EqNoCase(t, "NEW")
    ensures KeywordOf(t) == KMacro(OLD) <==> EqNoCase(t, "OLD")
    ensures KeywordOf(t) == KMacro(RECENT) <==> EqNoCase(t, "RECENT")
    ensures KeywordOf(t) == KMacro(SEEN) <==> EqNoCase(t, "SEEN")
  {
    hide KeywordOf, EqNoCase;
    Word(t, KMacro(ANSWERED), "ANSWERED");
    Word(t, KMacro(DELETED), "DELETED");
    Word(t, KMacro(DRAFT), "DRAFT");
    Word(t, KMacro(FLAGGED), "FLAGGED");
    Word(t, KMacro(NEW), "NEW");
    Word(t, KMacro(OLD), "OLD");
    Word(t, KMacro(RECENT), "RECENT");
    Word(t, KMacro(SEEN), "SEEN");
  }

  /** The negated flag keys. */
  lemma NegatedWords(t: string)
    ensures KeywordOf(t) == KMacro(UNANSWERED) <==> EqNoCase(t, "UNANSWERED")
    ensures KeywordOf(t) == KMacro(UNDELETED) <==> EqNoCase(t, "UNDELETED")
    ensures KeywordOf(t) == KMacro(UNDRAFT) <==> EqNoCase(t, "UNDRAFT")
    ensures KeywordOf(t) == KMacro(UNFLAGGED) <==> EqNoCase(t, "UNFLAGGED")
    ensures KeywordOf(t) == KMacro(UNKEYWORD) <==> EqNoCase(t, "UNKEYWORD")
    ensures KeywordOf(t) == KMacro(UNSEEN) <==> EqNoCase(t, "UNSEEN")
  {
    hide KeywordOf, EqNoCase;
    Word(t, KMacro(UNANSWERED), "UNANSWERED");
    Word(t, KMacro(UNDELETED), "UNDELETED");
    Word(t, KMacro(UNDRAFT), "UNDRAFT");
    Word(t, KMacro(UNFLAGGED), "UNFLAGGED");
    Word(t, KMacro(UNKEYWORD), "UNKEYWORD");
    Word(t, KMacro(UNSEEN), "UNSEEN");
  }

  // ---------- statements of one key ----------

  /** The server carries the statement out and reports the message. */
  predicate Selects(lib: Library, ts: seq<string>, msg: Message) {
    var s := Search0(lib, ts);
    s.Ready? && EvalNumber(lib, s.tree, msg).Some? && EvalNumber(lib, s.tree, msg).value != 0
  }

  lemma NotCharset(k: Keyword, t: string)
    requires k != KOther && EqNoCase(t, NameOf(k))
    ensures !EqNoCase(t, "CHARSET")
  {
    hide NameOf;
    NameUpper(k);
    FoldUpper(NameOf(k));
    FoldUpper("CHARSET");
    CharsetNoName(k);
  }

  lemma CharsetNoName(k: Keyword)
    requires k != KOther
    ensures NameOf(k) != "CHARSET"
  {
    assert NameOf(k) == [] || |NameOf(k)| != 7 || NameOf(k)[0] != 'C';
  }

  /** A statement that is one query. */
  lemma OneQuery(lib: Library, q: Query, msg: Message)
    requires Good(lib, q) && TokensOf(q) != [] && !EqNoCase(TokensOf(q)[0], "CHARSET")
    ensures Search0(lib, TokensOf(q)).Ready?
    ensures Selects(lib, TokensOf(q), msg) <==> Matches(lib, q, AsRead(lib, msg))
  {
    hide Good, Matches, EvalNumber, Compile, TokensOf, EqNoCase;
    var keys := [q];
    assert keys[1..] == [] && GoodAll(lib, keys[1..]) && GoodAll(lib, keys);
    OneTokens(q);
    SearchSelects(lib, keys, msg);
    OneMatches(lib, q, AsRead(lib, msg));
  }

  lemma OneTokens(q: Query)
    ensures TokensOfAll([q]) == TokensOf(q)
  {
    hide TokensOf;
    assert [q][1..] == [];
  }

  lemma OneMatches(lib: Library, q: Query, msg: Message)
    requires GoodAll(lib, [q])
    ensures Good(lib, q) && (MatchesAll(lib, [q], msg) <==> Matches(lib, q, msg))
  {
    hide Good, Matches;
    assert [q][1..] == [];
  }

  lemma OneCond(lib: Library, c: Cond, w: string, args: seq<string>, msg: Message)
    requires EqNoCase(w, CondName(c)) && GoodArgs(lib, ArgTypes(c), args)
    ensures Search0(lib, [w] + args).Ready?
    ensures Selects(lib, [w] + args, msg) <==> CondMatches(lib, c, args, AsRead(lib, msg))
  {
    hide Search0, EvalNumber, EqNoCase, ArgTypes, CondName, GoodArgs, CondMatches, Selects;
    var q := QCond(c, w, args);
    NamesOf(KCond(c));
    NotCharset(KCond(c), w);
    assert Good(lib, q) && TokensOf(q) == [w] + args;
    OneQuery(lib, q, msg);
  }

  lemma OneMacro(lib: Library, m: Macro, w: string, msg: Message)
    requires m != UNKEYWORD && EqNoCase(w, MacroName(m))
    ensures Search0(lib, [w]).Ready?
    ensures Selects(lib, [w], msg) <==> MacroMatches(m, AsRead(lib, msg))
  {
    hide Search0, EvalNumber, EqNoCase, MacroName, MacroMatches, Selects;
    var q := QMacro(m, w);
    NamesOf(KMacro(m));
    NotCharset(KMacro(m), w);
    assert Good(lib, q) && TokensOf(q) == [w];
    OneQuery(lib, q, msg);
  }

  // ---------- what the words select ----------

  /** LARGER and SMALLER, from the digits the client writes. */
  lemma SizeKeys(lib: Library, w: string, n: nat, msg: Message)
    requires n <= ULONG_MAX
    ensures EqNoCase(w, "LARGER") ==>
              Search0(lib, [w, Dec(n)]).Ready? && (Selects(lib, [w, Dec(n)], msg) <==> msg.size > n)
    ensures EqNoCase(w, "SMALLER") ==>
              Search0(lib, [w, Dec(n)]).Ready? && (Selects(lib, [w, Dec(n)], msg) <==> msg.size < n)
  {
    hide Search0, Selects, EqNoCase, Strtoul, Dec;
    StrtoulDec(n, []);
    assert Dec(n) + [] == Dec(n) && [w] + [Dec(n)] == [w, Dec(n)];
    if EqNoCase(w, "LARGER") {
      OneCond(lib, LARGER, w, [Dec(n)], msg);
    }
    if EqNoCase(w, "SMALLER") {
      OneCond(lib, SMALLER, w, [Dec(n)], msg);
    }
  }

  /** The keys that ask for a flag, by the bits of include/mailutils/attribute.h: \Seen is
      0x20, and a message is recent until 0x10 is set. */
  lemma FlagKeys(lib: Library, w: string, msg: Message)
    ensures EqNoCase(w, "ANSWERED") ==> (Selects(lib, [w], msg) <==> msg.flags & 0x01 != 0)
    ensures EqNoCase(w, "FLAGGED") ==> (Selects(lib, [w], msg) <==> msg.flags & 0x02 != 0)
    ensures EqNoCase(w, "DELETED") ==> (Selects(lib, [w], msg) <==> msg.flags & 0x04 != 0)
    ensures EqNoCase(w, "DRAFT") ==> (Selects(lib, [w], msg) <==> msg.flags & 0x08 != 0)
    ensures EqNoCase(w, "SEEN") ==> (Selects(lib, [w], msg) <==> msg.flags & 0x20 != 0)
    ensures EqNoCase(w, "RECENT") ==> (Selects(lib, [w], msg) <==> msg.flags & 0x10 == 0)
    ensures EqNoCase(w, "NEW") ==> (Selects(lib, [w], msg) <==> msg.flags & 0x10 == 0 && msg.flags & 0x20 == 0)
  {
    hide Search0, Selects, EqNoCase, AsRead;
    forall m | m != UNKEYWORD && EqNoCase(w, MacroName(m))
      ensures Selects(lib, [w], msg) <==> MacroMatches(m, msg)
    {
      MacroSelects(lib, m, w, msg);
    }
    assert MacroName(ANSWERED) == "ANSWERED" && MacroName(FLAGGED) == "FLAGGED" && MacroName(DELETED) == "DELETED";
    assert MacroName(DRAFT) == "DRAFT" && MacroName(SEEN) == "SEEN" && MacroName(RECENT) == "RECENT";
    assert MacroName(NEW) == "NEW";
  }

  lemma MacroSelects(lib: Library, m: Macro, w: string, msg: Message)
    requires m != UNKEYWORD && EqNoCase(w, MacroName(m))
    ensures Search0(lib, [w]).Ready? && (Selects(lib, [w], msg) <==> MacroMatches(m, msg))
  {
    hide Search0, Selects, EqNoCase, MacroMatches, AsRead;
    OneMacro(lib, m, w, msg);
    SameFlags(lib, msg, w, m);
  }

  /** Their negations. */
  lemma NegatedKeys(lib: Library, w: string, msg: Message)
    ensures EqNoCase(w, "UNANSWERED") ==> (Selects(lib, [w], msg) <==> msg.flags & 0x01 == 0)
    ensures EqNoCase(w, "UNFLAGGED") ==> (Selects(lib, [w], msg) <==> msg.flags & 0x02 == 0)
    ensures EqNoCase(w, "UNDELETED") ==> (Selects(lib, [w], msg) <==> msg.flags & 0x04 == 0)
    ensures EqNoCase(w, "UNDRAFT") ==> (Selects(lib, [w], msg) <==> msg.flags & 0x08 == 0)
    ensures EqNoCase(w, "UNSEEN") ==> (Selects(lib, [w], msg) <==> msg.flags & 0x20 == 0)
    ensures EqNoCase(w, "OLD") ==> (Selects(lib, [w], msg) <==> msg.flags & 0x10 != 0)
  {
    hide Search0, Selects, EqNoCase, AsRead;
    forall m | m != UNKEYWORD && EqNoCase(w, MacroName(m))
      ensures Selects(lib, [w], msg) <==> MacroMatches(m, msg)
    {
      MacroSelects(lib, m, w, msg);
    }
    assert MacroName(UNANSWERED) == "UNANSWERED" && MacroName(UNFLAGGED) == "UNFLAGGED";
    assert MacroName(UNDELETED) == "UNDELETED" && MacroName(UNDRAFT) == "UNDRAFT";
    assert MacroName(UNSEEN) == "UNSEEN" && MacroName(OLD) == "OLD";
  }

  lemma TextArgs(lib: Library, c: Cond, args: seq<string>)
    requires (c in {BCC, BODY, CC, FROM, KEYWORD, SUBJECT, TEXT, TO} && |args| == 1) || (c == HEADER && |args| == 2)
    ensures GoodArgs(lib, ArgTypes(c), args)
  {
  }

  /** The keys that look for a text. */
  lemma TextKeys(lib: Library, w: string, s: string, msg: Message)
    ensures EqNoCase(w, "BCC") ==> (Selects(lib, [w, s], msg) <==> msg.header("Bcc", s))
    ensures EqNoCase(w, "CC") ==> (Selects(lib, [w, s], msg) <==> msg.header("Cc", s))
    ensures EqNoCase(w, "SUBJECT") ==> (Selects(lib, [w, s], msg) <==> msg.header("Subject", s))
    ensures EqNoCase(w, "TO") ==> (Selects(lib, [w, s], msg) <==> msg.header("To", s))
    ensures EqNoCase(w, "FROM") ==> (Selects(lib, [w, s], msg) <==> msg.header("From", s) || msg.sender(s))
    ensures EqNoCase(w, "BODY") ==> (Selects(lib, [w, s], msg) <==> msg.body(s))
    ensures EqNoCase(w, "TEXT") ==> (Selects(lib, [w, s], msg) <==> InFields(msg.fields, s) || msg.body(s))
  {
    hide Search0, Selects, EqNoCase, GoodArgs, ArgTypes;
    forall c | c in {BCC, BODY, CC, FROM, SUBJECT, TEXT, TO} && EqNoCase(w, CondName(c))
      ensures Selects(lib, [w, s], msg) <==> TextInstr(c, s, msg)
    {
      TextSelects(lib, c, w, s, msg);
    }
    assert CondName(BCC) == "BCC" && CondName(CC) == "CC" && CondName(SUBJECT) == "SUBJECT" && CondName(TO) == "TO";
    assert CondName(FROM) == "FROM" && CondName(BODY) == "BODY" && CondName(TEXT) == "TEXT";
  }

  lemma TextSelects(lib: Library, c: Cond, w: string, s: string, msg: Message)
    requires c in {BCC, BODY, CC, FROM, SUBJECT, TEXT, TO} && EqNoCase(w, CondName(c))
    ensures Search0(lib, [w, s]).Ready? && (Selects(lib, [w, s], msg) <==> TextInstr(c, s, msg))
  {
    hide Search0, Selects, EqNoCase, CondName;
    TextArgs(lib, c, [s]);
    assert [w] + [s] == [w, s];
    OneCond(lib, c, w, [s], msg);
  }

  /** HEADER with any field, KEYWORD with any name, and UID with any set. */
  lemma NamedKeys(lib: Library, w: string, name: string, s: string, msg: Message)
    ensures EqNoCase(w, "HEADER") ==> (Selects(lib, [w, name, s], msg) <==> msg.header(name, s))
    ensures EqNoCase(w, "KEYWORD") ==> (Selects(lib, [w, name], msg) <==> KeywordMatches(name, msg))
    ensures EqNoCase(w, "UID") && lib.uidset(s) ==> (Selects(lib, [w, s], msg) <==> lib.inUids(s, msg.msgno))
  {
    hide Search0, Selects, EqNoCase, KeywordMatches;
    assert [w] + [name, s] == [w, name, s] && [w] + [name] == [w, name] && [w] + [s] == [w, s];
    if EqNoCase(w, "HEADER") {
      TextArgs(lib, HEADER, [name, s]);
      OneCond(lib, HEADER, w, [name, s], msg);
    }
    if EqNoCase(w, "KEYWORD") {
      TextArgs(lib, KEYWORD, [name]);
      OneCond(lib, KEYWORD, w, [name], msg);
      SameFlags(lib, msg, name, NEW);
    }
    if EqNoCase(w, "UID") && lib.uidset(s) {
      assert GoodArgs(lib, ArgTypes(UID), [s]);
      OneCond(lib, UID, w, [s], msg);
    }
  }

  /** TEXT finds what it should, in all fields and in the body, if and only if the text is
      not in the last field alone, which is never looked at. */
  lemma TextExact(lib: Library, w: string, s: string, msg: Message)
    requires EqNoCase(w, "TEXT")
    ensures (Selects(lib, [w, s], msg) <==> (exists i :: 0 <= i < |msg.fields| && msg.fields[i](s)) || msg.body(s))
       <==> InFields(msg.fields, s) || msg.body(s) || msg.fields == [] || !msg.fields[|msg.fields| - 1](s)
  {
    hide Selects, EqNoCase;
    TextKeys(lib, w, s, msg);
    var n := |msg.fields|;
    assert n > 0 && msg.fields[n - 1](s) ==> exists i :: 0 <= i < n && msg.fields[i](s);
  }

  // ---------- dates ----------

  /** What section 6.4.4 of RFC 3501 asks of a date key. */
  predicate DayMeant(c: Cond, day: int, msg: Message) {
    match c
    case BEFORE => msg.internal.Some? && msg.internal.value < day
    case ON => msg.internal == Some(day)
    case SINCE => msg.internal.Some? && msg.internal.value >= day
    case SENTBEFORE => msg.sent.Some? && msg.sent.value < day
    case SENTON => msg.sent == Some(day)
    case SENTSINCE => msg.sent.Some? && msg.sent.value >= day
    case _ => false
  }

  predicate IsDate(c: Cond) {
    c in {BEFORE, ON, SINCE} || c in {SENTBEFORE, SENTON, SENTSINCE}
  }

  lemma DateSelects(lib: Library, c: Cond, w: string, t: string, msg: Message)
    requires IsDate(c) && EqNoCase(w, CondName(c)) && lib.date(t).Some?
    ensures Search0(lib, [w, t]).Ready?
    ensures Selects(lib, [w, t], msg) <==> DayMatches(c, lib.date(t).value, msg)
  {
    hide Search0, Selects, EqNoCase, CondName, DayMatches;
    assert GoodArgs(lib, ArgTypes(c), [t]);
    assert [w] + [t] == [w, t];
    OneCond(lib, c, w, [t], msg);
    SameDays(lib, c, lib.date(t).value, msg);
  }

  lemma SameDays(lib: Library, c: Cond, day: int, msg: Message)
    ensures DayMatches(c, day, AsRead(lib, msg)) <==> DayMatches(c, day, msg)
  {
  }

  /** The date keys, from their words: each selects what it should, except that ON and
      SENTON also select the day after, and that a message without a date of its own
      counts as sent on the first day of 1970. */
  lemma DateKeys(lib: Library, w: string, t: string, msg: Message)
    requires lib.date(t).Some?
    ensures var day := lib.date(t).value;
            && (EqNoCase(w, "BEFORE") ==> (Selects(lib, [w, t], msg) <==> DayMeant(BEFORE, day, msg)))
            && (EqNoCase(w, "SINCE") ==> (Selects(lib, [w, t], msg) <==> DayMeant(SINCE, day, msg)))
            && (EqNoCase(w, "ON") ==>
                  (Selects(lib, [w, t], msg) <==> DayMeant(ON, day, msg) || DayMeant(ON, day + 1, msg)))
            && (EqNoCase(w, "SENTBEFORE") ==>
                  (Selects(lib, [w, t], msg) <==> DayMeant(SENTBEFORE, day, msg) || (msg.sent.None? && 0 < day)))
            && (EqNoCase(w, "SENTSINCE") ==>
                  (Selects(lib, [w, t], msg) <==> DayMeant(SENTSINCE, day, msg) || (msg.sent.None? && 0 >= day)))
            && (EqNoCase(w, "SENTON") ==>
                  (Selects(lib, [w, t], msg) <==> DayMeant(SENTON, day, msg) || DayMeant(SENTON, day + 1, msg)
                                                  || (msg.sent.None? && -1 <= day <= 0)))
  {
    hide Search0, Selects, EqNoCase;
    forall c | IsDate(c) && EqNoCase(w, CondName(c))
      ensures Selects(lib, [w, t], msg) <==> DayMatches(c, lib.date(t).value, msg)
    {
      DateSelects(lib, c, w, t, msg);
    }
    assert CondName(BEFORE) == "BEFORE" && CondName(SINCE) == "SINCE" && CondName(ON) == "ON";
    assert CondName(SENTBEFORE) == "SENTBEFORE" && CondName(SENTON) == "SENTON" && CondName(SENTSINCE) == "SENTSINCE";
  }

  /** A date test is right for a message if and only if the message is not of the day
      after, and has a date, unless 1970 is on the right side. */
  lemma DatesExact(c: Cond, day: int, msg: Message)
    requires IsDate(c)
    ensures (DayMatches(c, day, msg) <==> DayMeant(c, day, msg)) <==>
              && (c == ON ==> msg.internal != Some(day + 1))
              && (c == SENTON ==> msg.sent != Some(day + 1))
              && (msg.sent.None? && c == SENTBEFORE ==> day <= 0)
              && (msg.sent.None? && c == SENTSINCE ==> day > 0)
              && (msg.sent.None? && c == SENTON ==> day < -1 || day > 0)
  {
  }

  /** SEARCH ON finds a message of the next day, and SEARCH TEXT does not find a text that
      stands in the only field of a header. */
  lemma NextDayFound(lib: Library, t: string, msg: Message)
    requires lib.date(t).Some? && msg.internal == Some(lib.date(t).value + 1)
    ensures Selects(lib, ["ON", t], msg) && !DayMeant(ON, lib.date(t).value, msg)
    ensures |msg.fields| == 1 && !msg.body(t) ==> !Selects(lib, ["TEXT", t], msg)
  {
    hide Selects, EqNoCase;
    SelfSpelled("ON");
    SelfSpelled("TEXT");
    DateKeys(lib, "ON", t, msg);
    TextKeys(lib, "TEXT", t, msg);
  }

  // ---------- combinations ----------

  /** ALL, NOT, OR, parentheses and several keys in a row. */
  lemma Combined(lib: Library, w: string, p: Query, q: Query, msg: Message)
    requires Good(lib, p) && Good(lib, q)
    ensures var m := AsRead(lib, msg);
            && (EqNoCase(w, "ALL") ==> Selects(lib, [w], msg))
            && (EqNoCase(w, "NOT") ==> (Selects(lib, [w] + TokensOf(p), msg) <==> !Matches(lib, p, m)))
            && (EqNoCase(w, "OR") ==>
                  (Selects(lib, [w] + TokensOf(p) + TokensOf(q), msg) <==> Matches(lib, p, m) || Matches(lib, q, m)))
            && (Selects(lib, ["("] + (TokensOf(p) + TokensOf(q)) + [")"], msg) <==>
                  Matches(lib, p, m) && Matches(lib, q, m))
  {
    hide Search0, Selects, EqNoCase, Matches, TokensOf, Good;
    if EqNoCase(w, "ALL") {
      AllSelects(lib, w, msg);
    }
    if EqNoCase(w, "NOT") {
      NotSelects(lib, w, p, msg);
    }
    if EqNoCase(w, "OR") {
      OrSelects(lib, w, p, q, msg);
    }
    GroupSelects(lib, p, q, msg);
  }

  lemma AllSelects(lib: Library, w: string, msg: Message)
    requires EqNoCase(w, "ALL")
    ensures Selects(lib, [w], msg)
  {
    hide Search0, Selects, EqNoCase;
    NotCharset(KAll, w);
    OneQuery(lib, QAll(w), msg);
  }

  lemma NotSelects(lib: Library, w: string, p: Query, msg: Message)
    requires Good(lib, p) && EqNoCase(w, "NOT")
    ensures Selects(lib, [w] + TokensOf(p), msg) <==> !Matches(lib, p, AsRead(lib, msg))
  {
    hide Search0, Selects, EqNoCase;
    NotCharset(KNot, w);
    OneQuery(lib, QNot(w, p), msg);
  }

  lemma OrSelects(lib: Library, w: string, p: Query, q: Query, msg: Message)
    requires Good(lib, p) && Good(lib, q) && EqNoCase(w, "OR")
    ensures Selects(lib, [w] + TokensOf(p) + TokensOf(q), msg) <==>
              Matches(lib, p, AsRead(lib, msg)) || Matches(lib, q, AsRead(lib, msg))
  {
    hide Search0, Selects, EqNoCase;
    NotCharset(KOr, w);
    OneQuery(lib, QOr(w, p, q), msg);
  }

  lemma ParenthesisNoCharset()
    ensures !EqNoCase("(", "CHARSET")
  {
    assert |Fold("(")| == 1 && |Fold("CHARSET")| == 7;
  }

  lemma TwoKeys(lib: Library, p: Query, q: Query)
    requires Good(lib, p) && Good(lib, q)
    ensures GoodAll(lib, [p, q]) && TokensOfAll([p, q]) == TokensOf(p) + TokensOf(q)
  {
    hide Good, TokensOf;
    assert [p, q][1..] == [q] && [q][1..] == [];
    assert GoodAll(lib, [q][1..]) && GoodAll(lib, [q]);
    OneTokens(q);
  }

  lemma TwoMatch(lib: Library, p: Query, q: Query, msg: Message)
    requires GoodAll(lib, [p, q]) && Good(lib, p) && Good(lib, q)
    ensures MatchesAll(lib, [p, q], msg) <==> Matches(lib, p, msg) && Matches(lib, q, msg)
  {
    hide Good, Matches;
    assert [p, q][1..] == [q];
    OneMatches(lib, q, msg);
  }

  lemma GroupSelects(lib: Library, p: Query, q: Query, msg: Message)
    requires Good(lib, p) && Good(lib, q)
    ensures Selects(lib, ["("] + (TokensOf(p) + TokensOf(q)) + [")"], msg) <==>
              Matches(lib, p, AsRead(lib, msg)) && Matches(lib, q, AsRead(lib, msg))
  {
    hide Search0, Selects, EqNoCase;
    var keys := [p, q];
    TwoKeys(lib, p, q);
    ParenthesisNoCharset();
    OneQuery(lib, QGroup(keys), msg);
    TwoMatch(lib, p, q, AsRead(lib, msg));
  }

  // ---------- character sets and refusals ----------

  /** CHARSET, in any spelling, with the character set that every server knows, one that
      the library has, or any other. */
  lemma CharsetStatement(lib: Library, w: string, name: string, ts: seq<string>)
    requires EqNoCase(w, "CHARSET")
    ensures Search0(lib, [w, name] + ts) ==
              if EqNoCase(name, "US-ASCII") || lib.charset(name) then Compiled(Compile(lib, ts))
              else No("[BADCHARSET] Charset not supported")
    ensures ts != [] && !EqNoCase(ts[0], "CHARSET") ==> Search0(lib, ts) == Compiled(Compile(lib, ts))
  {
    hide Compile, EqNoCase;
    assert ([w, name] + ts)[2..] == ts;
  }

  lemma RefusedKey(lib: Library, ts: seq<string>, mesg: string)
    requires ts != [] && C0(ts[0]) != ')' && !EqNoCase(ts[0], "CHARSET") && ParseKey(lib, ts) == Fail(Some(mesg))
    ensures Search0(lib, ts) == Bad(mesg)
  {
    hide ParseKey, EqNoCase;
  }

  lemma WordStart(k: Keyword, w: string)
    requires k != KOther && k != KOpen && EqNoCase(w, NameOf(k))
    ensures w != [] && C0(w) != ')' && KeywordOf(w) == k && !EqNoCase(w, "CHARSET")
  {
    hide NameOf, KeywordOf;
    FirstLetter(k);
    NotCharset(k, w);
    Recognised(k, w);
    assert Fold(w)[0] == Upper(w[0]) && Fold(NameOf(k))[0] == Upper(NameOf(k)[0]);
  }

  /** NOT and OR at the end of a statement, and OR with one key. */
  lemma MissingKeys(lib: Library, w: string)
    ensures EqNoCase(w, "NOT") ==> Search0(lib, [w]) == Bad("Unexpected end of statement")
    ensures EqNoCase(w, "OR") ==> Search0(lib, [w]) == Bad("Unexpected end of statement")
    ensures EqNoCase(w, "OR") ==> Search0(lib, [w, "ALL"]) == Bad("Too few args")
  {
    hide Search0, EqNoCase, KeywordOf;
    if EqNoCase(w, "NOT") {
      WordStart(KNot, w);
      RefusedKey(lib, [w], "Unexpected end of statement");
    }
    if EqNoCase(w, "OR") {
      WordStart(KOr, w);
      RefusedKey(lib, [w], "Unexpected end of statement");
      ReservedWords("ALL");
      SelfSpelled("ALL");
      assert [w, "ALL"][1..] == ["ALL"] && ["ALL"][1..] == [];
      assert ParseKey(lib, ["ALL"]) == Tree(ValueNode(Number(1)), []);
      RefusedKey(lib, [w, "ALL"], "Too few args");
    }
  }

  lemma SelfSpelled(w: string)
    ensures EqNoCase(w, w)
  {
  }

  lemma RefusedCond(lib: Library, c: Cond, w: string, ts: seq<string>, mesg: string)
    requires EqNoCase(w, CondName(c)) && ParseArgs(lib, ArgTypes(c), ts) == ArgFail(mesg)
    ensures Search0(lib, [w] + ts) == Bad(mesg)
  {
    hide Search0, EqNoCase, KeywordOf, CondName, ArgTypes, ParseArgs;
    NamesOf(KCond(c));
    WordStart(KCond(c), w);
    assert ([w] + ts)[1..] == ts;
    RefusedKey(lib, [w] + ts, mesg);
  }

  /** Arguments that are missing or malformed. */
  lemma BadArguments(lib: Library, w: string, t: string)
    ensures EqNoCase(w, "LARGER") ==> Search0(lib, [w]) == Bad("Not enough arguments for criterion")
    ensures EqNoCase(w, "LARGER") && Strtoul(t).1 < |t| ==> Search0(lib, [w, t]) == Bad("Invalid number")
    ensures EqNoCase(w, "ON") && lib.date(t).None? ==> Search0(lib, [w, t]) == Bad("Bad date format")
    ensures EqNoCase(w, "UID") && !lib.uidset(t) ==> Search0(lib, [w, t]) == Bad("Bogus number set")
  {
    hide Search0, EqNoCase, Strtoul;
    assert [w] + [] == [w] && [w] + [t] == [w, t];
    if EqNoCase(w, "LARGER") {
      RefusedCond(lib, LARGER, w, [], "Not enough arguments for criterion");
      if Strtoul(t).1 < |t| {
        RefusedCond(lib, LARGER, w, [t], "Invalid number");
      }
    }
    if EqNoCase(w, "ON") && lib.date(t).None? {
      RefusedCond(lib, ON, w, [t], "Bad date format");
    }
    if EqNoCase(w, "UID") && !lib.uidset(t) {
      RefusedCond(lib, UID, w, [t], "Bogus number set");
    }
  }

  /** Words that are neither keys nor sets, parentheses that do not fit, and a closing one
      where a key or the end is due. */
  lemma BadStructure(lib: Library, t: string)
    requires KeywordOf(t) == KOther && C0(t) != ')' && lib.msgset(t) == SetSyntax && !EqNoCase(t, "CHARSET")
    ensures Search0(lib, [t]) == Bad("Unknown search criterion")
    ensures Search0(lib, [")"]) == Bad("Parse error")
    ensures Search0(lib, ["ALL", ")"]) == Bad("Junk at the end of statement")
    ensures Search0(lib, ["(", "ALL", ")x"]) == Bad("Unbalanced parenthesis")
  {
    hide Search0, EqNoCase, KeywordOf;
    RefusedKey(lib, [t], "Unknown search criterion");
    ClosedTooEarly(lib);
    ClosedWrongly(lib);
  }

  lemma AllKey(lib: Library, rest: seq<string>)
    ensures ParseKey(lib, ["ALL"] + rest) == Tree(ValueNode(Number(1)), rest)
  {
    hide KeywordOf, EqNoCase;
    SelfSpelled("ALL");
    ReservedWords("ALL");
    assert (["ALL"] + rest)[1..] == rest;
  }

  lemma ClosedTooEarly(lib: Library)
    ensures Search0(lib, [")"]) == Bad("Parse error")
    ensures Search0(lib, ["ALL", ")"]) == Bad("Junk at the end of statement")
  {
    hide ParseKey, ParseList, EqNoCase;
    NoCharsets();
    NoKey(lib);
    AllKey(lib, [")"]);
    assert ["ALL"] + [")"] == ["ALL", ")"];
    ClosedEnd(lib, ValueNode(Number(1)), ")");
    StepList(lib, ["ALL", ")"], None);
  }

  lemma NoCharsets()
    ensures !EqNoCase(")", "CHARSET") && !EqNoCase("ALL", "CHARSET")
  {
    assert |Fold(")")| == 1 && |Fold("ALL")| == 3 && |Fold("CHARSET")| == 7;
  }

  lemma NoKey(lib: Library)
    ensures ParseList(lib, [")"], None) == Fail(None)
  {
    hide ParseKey;
  }

  lemma ClosedEnd(lib: Library, left: Node, t: string)
    requires C0(t) == ')'
    ensures ParseList(lib, [t], Some(left)) == Tree(left, [t])
  {
  }

  lemma ClosedWrongly(lib: Library)
    ensures Search0(lib, ["(", "ALL", ")x"]) == Bad("Unbalanced parenthesis")
  {
    hide Search0, KeywordOf, EqNoCase, ParseList;
    var ts := ["(", "ALL", ")x"];
    AllKey(lib, [")x"]);
    assert ["ALL"] + [")x"] == ["ALL", ")x"] && ts[1..] == ["ALL", ")x"];
    ClosedEnd(lib, ValueNode(Number(1)), ")x");
    StepList(lib, ["ALL", ")x"], None);
    ParenthesisNoCharset();
    Parenthesis();
    RefusedKey(lib, ts, "Unbalanced parenthesis");
  }

  lemma Parenthesis()
    ensures KeywordOf("(") == KOpen
  {
  }
}
