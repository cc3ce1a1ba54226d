/** SEARCH with message sets as the library reads them: which messages the sets in a query
    select, and that the library is one the theorems on the parser speak of. */
module SearchSets {
  import opened Common
  import opened MsgSet
  import opened Search
  import opened SearchEval
  import opened SearchRoundTrip
  import opened SearchTrees

  /** What a bare set in a query is read for. */
  function Bare(uids: seq<nat>, isuid: bool): Where {
    if isuid then Uids(uids) else Numbers(|uids|)
  }

  function Accepted(p: SetParse): SetResult {
    match p
    case Ranges(_) => SetOk
    case SyntaxError => SetSyntax
    case Refused => SetNoent
  }

  /** Whether the set read from a text holds a number. */
  predicate HeldBy(t: string, w: Where, n: nat) {
    Read(t, w).Ranges? && Contains(Read(t, w).ranges, n)
  }

  /** A bare set is asked for the number of a message; in a UID SEARCH that is the number
      of the message with the UID asked for. */
  predicate InBare(uids: seq<nat>, isuid: bool, t: string, n: nat) {
    if isuid then NumberOfUid(uids, n).Some? && HeldBy(t, Uids(uids), NumberOfUid(uids, n).value)
    else HeldBy(t, Numbers(|uids|), n)
  }

  /** The library in a mailbox whose messages have these UIDs; dates and character sets
      may be any. */
  function MailboxLibrary(uids: seq<nat>, isuid: bool, date: string -> Option<int>, charset: string -> bool): Library {
    Library(t => Accepted(Read(t, Bare(uids, isuid))), t => Read(t, Unbound).Ranges?, date, charset, isuid,
            (t: string, n: nat) => InBare(uids, isuid, t, n), (t: string, n: nat) => HeldBy(t, Unbound, n))
  }

  /** The message stands in the mailbox at its number and with its UID. */
  predicate Stands(uids: seq<nat>, msg: Message) {
    1 <= msg.msgno <= |uids| && uids[msg.msgno - 1] == msg.uid
  }

  // ---------- a library the theorems on the parser speak of ----------

  /** No set begins with a closing parenthesis. */
  lemma NoParenthesis(t: string, w: Where)
    requires C0(t) == ')' && (w.Uids? ==> Ascending(w.uids))
    ensures Read(t, w) == SyntaxError
  {
    var s := SpaceSpan(t);
    assert s == 0 && NumberStart(t) == 0 && t[0..] == t && DigitSpan(t) == 0;
    assert Strtoul(t) == (0, 0) && t[..0] == [] && !OutOfRange(t);
    var n := Drawn(0, w);
    assert ParseRange(t, w) == Some((Ordered(n, n), t));
    if w.Uids? && w.uids != [] {
      LeastTranslates(w.uids);
    }
  }

  lemma LeastTranslates(uids: seq<nat>)
    requires Ascending(uids) && uids != []
    ensures Drawn(0, Uids(uids)) == uids[0] && Translate(uids, Range(uids[0], uids[0])).Some?
  {
    assert uids[0] in uids && uids[0] <= uids[|uids| - 1];
  }

  lemma MailboxSane(uids: seq<nat>, isuid: bool, date: string -> Option<int>, charset: string -> bool)
    requires Ascending(uids)
    ensures Sane(MailboxLibrary(uids, isuid, date, charset))
  {
    hide Read;
    forall t | C0(t) == ')' ensures MailboxLibrary(uids, isuid, date, charset).msgset(t) == SetSyntax {
      NoParenthesis(t, Bare(uids, isuid));
    }
  }

  /** A single UID denotes itself. */
  lemma MailboxSingles(uids: seq<nat>, isuid: bool, date: string -> Option<int>, charset: string -> bool)
    ensures Singles(MailboxLibrary(uids, isuid, date, charset))
  {
    hide Read, AllAdded, Contains, Denotes, StarFree;
    forall k: nat | 0 < k <= ULONG_MAX
      ensures Read(Dec(k), Unbound).Ranges? && forall n: nat :: HeldBy(Dec(k), Unbound, n) <==> n == k
    {
      var items := [One(Num(k))];
      SetRead(items, Unbound);
      assert SetText(items) == Dec(k);
      SingleDenotes(k);
      forall n: nat ensures HeldBy(Dec(k), Unbound, n) <==> n == k {
        UnboundExact(items, n);
        SingleMember(k, n);
      }
      UnboundExact(items, k);
    }
  }

  lemma SingleDenotes(k: nat)
    ensures StarFree([One(Num(k))])
  {
  }

  lemma SingleMember(k: nat, n: nat)
    ensures Denotes([One(Num(k))], 0, n) <==> n == k
  {
    var items := [One(Num(k))];
    assert ItemDenotes(items[0], 0, n) <==> n == k;
  }

  // ---------- what the sets of a query select ----------

  /** SEARCH with a bare set: the messages that the set denotes by section 6.4.4 of
      RFC 3501, and the last message besides if an item lies behind the mailbox. */
  lemma BareSetSelects(uids: seq<nat>, date: string -> Option<int>, charset: string -> bool,
                       items: seq<Item>, msg: Message)
    requires GoodSet(items) && Stands(uids, msg)
    ensures var lib, q := MailboxLibrary(uids, false, date, charset), QSet(SetText(items));
            && Good(lib, q)
            && (Meaning(lib, Build(lib, q), msg) <==>
                  Denotes(items, |uids|, msg.msgno) || (msg.msgno == |uids| && AnyBeyond(items, |uids|)))
  {
    hide Denotes, AnyBeyond, Matches, Meaning, Build, MailboxLibrary, KeywordOf, SetText;
    var lib, q := MailboxLibrary(uids, false, date, charset), QSet(SetText(items));
    BareHeld(uids, date, charset, items, msg.msgno);
    SetToken(items);
    BuildMeaning(lib, q, msg);
    SetMatches(lib, SetText(items), msg);
  }

  lemma BareHeld(uids: seq<nat>, date: string -> Option<int>, charset: string -> bool, items: seq<Item>, n: nat)
    requires GoodSet(items) && 1 <= n <= |uids|
    ensures var lib := MailboxLibrary(uids, false, date, charset);
            && !lib.isuid && lib.msgset(SetText(items)) == SetOk
            && (lib.inSet(SetText(items), n) <==>
                  Denotes(items, |uids|, n) || (n == |uids| && AnyBeyond(items, |uids|)))
  {
    hide Read, AllAdded, Contains, Denotes, AnyBeyond, SetText;
    SetRead(items, Numbers(|uids|));
    NumbersExact(items, |uids|, n);
  }

  lemma SetMatches(lib: Library, t: string, msg: Message)
    ensures lib.msgset(t) == SetOk && Good(lib, QSet(t)) ==>
              (Matches(lib, QSet(t), AsRead(lib, msg)) <==>
                 lib.inSet(t, if lib.isuid then msg.uid else msg.msgno))
  {
  }

  /** The text of a set is taken for no key. */
  lemma SetToken(items: seq<Item>)
    requires GoodSet(items)
    ensures KeywordOf(SetText(items)) == KOther && C0(SetText(items)) != ')'
  {
    SetStart(items);
    var t := SetText(items);
    SearchSpelled(t);
  }

  lemma SetStart(items: seq<Item>)
    requires GoodSet(items)
    ensures SetText(items) != [] && (IsDigit(SetText(items)[0]) || SetText(items)[0] == '*')
  {
    hide Dec;
    var x := items[0];
    assert ItemText(x) != [] && (IsDigit(ItemText(x)[0]) || ItemText(x)[0] == '*') by {
      assert BoundText(x.a) != [];
    }
  }

  lemma SearchSpelled(t: string)
    requires t != [] && (IsDigit(t[0]) || t[0] == '*')
    ensures KeywordOf(t) == KOther
  {
    hide FindMacro, FindCond, AllMacros, AllConds, MacroName, CondName;
    var k := KeywordOf(t);
    if k != KOther && k != KOpen {
      NotSpelled(k, t);
    }
  }

  lemma NotSpelled(k: Keyword, t: string)
    requires k != KOther && k != KOpen && t != [] && (IsDigit(t[0]) || t[0] == '*')
    ensures !EqNoCase(t, NameOf(k)) && !EqNoCase(NameOf(k), t)
  {
    FirstLetter(k);
    assert Fold(t)[0] == t[0] && (NameOf(k) != [] ==> Fold(NameOf(k))[0] == NameOf(k)[0]);
  }

  /** SEARCH with the UID key: the messages whose numbers the set denotes, where section
      6.4.4 of RFC 3501 asks for those whose UIDs it does. */
  lemma UidKeySelects(uids: seq<nat>, isuid: bool, date: string -> Option<int>, charset: string -> bool,
                      items: seq<Item>, msg: Message)
    requires GoodSet(items) && StarFree(items)
    ensures var lib, q := MailboxLibrary(uids, isuid, date, charset), QCond(UID, "UID", [SetText(items)]);
            && Good(lib, q)
            && (Meaning(lib, Build(lib, q), msg) <==> Denotes(items, 0, msg.msgno))
  {
    hide Read, AllAdded, Contains, Denotes, Matches, Meaning, Build;
    var lib, q := MailboxLibrary(uids, isuid, date, charset), QCond(UID, "UID", [SetText(items)]);
    SetRead(items, Unbound);
    UnboundExact(items, msg.msgno);
    UidGood(lib, SetText(items));
    BuildMeaning(lib, q, msg);
    UidMatches(lib, SetText(items), msg);
  }

  lemma UidGood(lib: Library, t: string)
    requires lib.uidset(t)
    ensures Good(lib, QCond(UID, "UID", [t]))
  {
    assert ArgTypes(UID) == "u";
  }

  lemma UidMatches(lib: Library, t: string, msg: Message)
    requires Good(lib, QCond(UID, "UID", [t]))
    ensures Matches(lib, QCond(UID, "UID", [t]), AsRead(lib, msg)) <==> lib.inUids(t, msg.msgno)
  {
  }
}
