/** What the SEARCH parser accepts and where it aborts, by the grammar alone: a key
    parses exactly when it is a query of the grammar, and the server aborts exactly
    when it meets UNKEYWORD where a key is due, or the end of the tokens where a
    parenthesis, the first key or the name of a character set is. */
module SearchGrammar {
  import opened Common
  import opened Search
  import opened SearchRoundTrip
  import opened SearchTrees

  // ---------- what the parser read ----------

  /** A token that the parser takes for a key is a spelling of it. */
  lemma SpelledSo(t: string)
    ensures var k := KeywordOf(t); k != KOther ==> if k == KOpen then t == "(" else EqNoCase(t, NameOf(k))
  {
    hide FindMacro, FindCond, AllMacros, AllConds, MacroName, CondName;
  }

  lemma {:induction false} ReadArgs(lib: Library, types: string, ts: seq<string>)
    requires forall i :: 0 <= i < |types| ==> types[i] == 's' || types[i] == 'n' || types[i] == 'd' || types[i] == 'u'
    requires ParseArgs(lib, types, ts).Args?
    ensures |types| <= |ts| && GoodArgs(lib, types, ts[..|types|])
    ensures ParseArgs(lib, types, ts).rest == ts[|types|..]
  {
    hide ParseArg;
    if types != [] {
      ReadArgs(lib, types[1..], ts[1..]);
      assert ts[1..][..|types| - 1] == ts[1..|types|];
      assert ts[1..][|types| - 1..] == ts[|types|..];
    }
  }

  lemma ReadSimple(lib: Library, ts: seq<string>) returns (q: Query)
    requires Sane(lib) && ts != [] && ParseSimple(lib, ts).Tree?
    requires KeywordOf(ts[0]).KCond? || KeywordOf(ts[0]) == KOther
    ensures Good(lib, q) && ts == TokensOf(q) + ParseSimple(lib, ts).rest
  {
    hide KeywordOf, ParseArgs, GoodArgs, ArgTypes, CondName;
    SpelledSo(ts[0]);
    if KeywordOf(ts[0]).KCond? {
      var c := KeywordOf(ts[0]).c;
      var n := |ArgTypes(c)|;
      ReadArgs(lib, ArgTypes(c), ts[1..]);
      q := QCond(c, ts[0], ts[1..][..n]);
      assert ts == [ts[0]] + ts[1..][..n] + ts[1..][n..];
    } else {
      q := QSet(ts[0]);
    }
  }

  /** Every key that parses is a query of the grammar in front of the tokens left over. */
  lemma {:induction false} Read(lib: Library, ts: seq<string>) returns (q: Query)
    requires Sane(lib) && ts != [] && ParseKey(lib, ts).Tree?
    ensures Good(lib, q) && ts == TokensOf(q) + ParseKey(lib, ts).rest
    decreases |ts|, 0
  {
    hide KeywordOf, ParseList, ParseSimple, MacroTokens, MacroName, GoodAll, Sane;
    SpelledSo(ts[0]);
    var w, more := ts[0], ts[1..];
    assert ts == [w] + more;
    match KeywordOf(w) {
      case KOpen =>
        var keys := ReadList(lib, more, None);
        q := QGroup(keys);
        Closed(TokensOfAll(keys), ParseList(lib, more, None).rest);
      case KAll => q := QAll(w);
      case KNot =>
        var p := Read(lib, more);
        q := QNot(w, p);
        AppendAssoc([w], TokensOf(p), ParseKey(lib, ts).rest);
      case KOr =>
        var l := Read(lib, more);
        var r := Read(lib, ParseKey(lib, more).rest);
        q := QOr(w, l, r);
        Twice([w], TokensOf(l), TokensOf(r), ParseKey(lib, ts).rest);
      case KMacro(m) =>
        UnkeywordName();
        if m == UNKEYWORD {
          UnkeywordAborts(lib, w, more);
        }
        q := QMacro(m, w);
      case _ => q := ReadSimple(lib, ts);
    }
  }

  lemma Closed(a: seq<string>, rest: seq<string>)
    requires rest != [] && rest[0] == ")"
    ensures ["("] + (a + rest) == ["("] + a + [")"] + rest[1..]
  {
  }

  lemma Twice(a: seq<string>, b: seq<string>, c: seq<string>, d: seq<string>)
    ensures a + (b + (c + d)) == a + b + c + d
  {
  }

  lemma {:induction false} ReadList(lib: Library, ts: seq<string>, left: Option<Node>) returns (keys: seq<Query>)
    requires Sane(lib) && ParseList(lib, ts, left).Tree?
    ensures GoodAll(lib, keys) && ts == TokensOfAll(keys) + ParseList(lib, ts, left).rest
    ensures left.None? ==> keys != []
    decreases |ts|, 1
  {
    hide ParseKey, TokensOf, Good, Sane;
    if ts == [] || C0(ts[0]) == ')' {
      keys := [];
    } else {
      var p := ParseKey(lib, ts);
      var q := Read(lib, ts);
      var more := ReadList(lib, p.rest, Some(Joined(left, p.node)));
      keys := [q] + more;
      assert keys[1..] == more;
      AppendAssoc(TokensOf(q), TokensOfAll(more), ParseList(lib, ts, left).rest);
    }
  }

  /** The statements of the grammar. */
  ghost predicate IsStatement(lib: Library, ts: seq<string>, keys: seq<Query>) {
    keys != [] && GoodAll(lib, keys) && ts == TokensOfAll(keys)
  }

  /** A statement compiles if and only if it is a list of queries of the grammar, and
      then to their tree. */
  lemma CompilesExactly(lib: Library, ts: seq<string>)
    requires Sane(lib)
    ensures Compile(lib, ts).Tree? <==> exists keys :: IsStatement(lib, ts, keys)
    ensures forall keys :: IsStatement(lib, ts, keys) ==> Compile(lib, ts) == Tree(BuildFrom(lib, keys, None), [])
  {
    hide ParseList, TokensOfAll, GoodAll, BuildFrom, Sane;
    if Compile(lib, ts).Tree? {
      var keys := ReadList(lib, ts, None);
      assert TokensOfAll(keys) + [] == TokensOfAll(keys);
      assert IsStatement(lib, ts, keys);
    }
    forall keys | IsStatement(lib, ts, keys) ensures Compile(lib, ts) == Tree(BuildFrom(lib, keys, None), []) {
      CompileKeys(lib, keys);
    }
  }

  // ---------- where the parser aborts ----------

  /** A way from the start of a key down to the place where the parser gives up. */
  datatype Place =
    | Unkeyword(name: string)
    | Unclosed(keys: seq<Query>)
    | InNot(word: string, p: Place)
    | InLeft(word: string, p: Place)
    | InRight(word: string, l: Query, p: Place)
    | InGroup(keys: seq<Query>, p: Place)

  /** The tokens on that way. */
  function Path(p: Place): seq<string> {
    match p
    case Unkeyword(name) => [name]
    case Unclosed(keys) => ["("] + TokensOfAll(keys)
    case InNot(word, p) => [word] + Path(p)
    case InLeft(word, p) => [word] + Path(p)
    case InRight(word, l, p) => [word] + TokensOf(l) + Path(p)
    case InGroup(keys, p) => ["("] + TokensOfAll(keys) + Path(p)
  }

  /** All keys passed on the way are queries of the grammar. */
  predicate GoodPlace(lib: Library, p: Place) {
    match p
    case Unkeyword(name) => EqNoCase(name, "UNKEYWORD")
    case Unclosed(keys) => keys != [] && GoodAll(lib, keys)
    case InNot(word, p) => EqNoCase(word, "NOT") && GoodPlace(lib, p)
    case InLeft(word, p) => EqNoCase(word, "OR") && GoodPlace(lib, p)
    case InRight(word, l, p) => EqNoCase(word, "OR") && Good(lib, l) && GoodPlace(lib, p)
    case InGroup(keys, p) => GoodAll(lib, keys) && GoodPlace(lib, p)
  }

  /** Whether the way ends at the end of the tokens. */
  predicate AtEnd(p: Place) {
    match p
    case Unkeyword(_) => false
    case Unclosed(_) => true
    case InNot(_, p) => AtEnd(p)
    case InLeft(_, p) => AtEnd(p)
    case InRight(_, _, p) => AtEnd(p)
    case InGroup(_, p) => AtEnd(p)
  }

  lemma PathStart(lib: Library, p: Place)
    requires GoodPlace(lib, p)
    ensures Path(p) != [] && C0(Path(p)[0]) != ')'
  {
    match p {
      case Unkeyword(name) => Spelled(KMacro(UNKEYWORD), name);
      case InNot(word, _) => Spelled(KNot, word);
      case InLeft(word, _) => Spelled(KOr, word);
      case InRight(word, _, _) => Spelled(KOr, word);
      case _ =>
    }
  }

  lemma NotCrash(lib: Library, word: string, ts: seq<string>)
    requires EqNoCase(word, "NOT") && ts != [] && ParseKey(lib, ts) == Crash
    ensures ParseKey(lib, [word] + ts) == Crash
  {
    hide KeywordOf;
    Recognised(KNot, word);
    assert ([word] + ts)[1..] == ts;
  }

  lemma OrCrash(lib: Library, word: string, ts: seq<string>)
    requires EqNoCase(word, "OR") && ts != []
    requires var p := ParseKey(lib, ts);
             p == Crash || (p.Tree? && p.rest != [] && ParseKey(lib, p.rest) == Crash)
    ensures ParseKey(lib, [word] + ts) == Crash
  {
    hide KeywordOf;
    Recognised(KOr, word);
    assert ([word] + ts)[1..] == ts;
  }

  lemma OpenCrash(lib: Library, ts: seq<string>)
    requires ts != []
    requires var p := ParseList(lib, ts, None); p == Crash || (p.Tree? && p.rest == [])
    ensures ParseKey(lib, ["("] + ts) == Crash
  {
    hide KeywordOf, ParseList;
    Recognised(KOpen, "(");
    assert (["("] + ts)[1..] == ts;
  }

  lemma {:induction false} ListCrash(lib: Library, keys: seq<Query>, left: Option<Node>, ts: seq<string>)
    requires GoodAll(lib, keys) && ts != [] && C0(ts[0]) != ')' && ParseKey(lib, ts) == Crash
    ensures ParseList(lib, TokensOfAll(keys) + ts, left) == Crash
  {
    hide ParseKey, TokensOf, Build, Good;
    if keys == [] {
      assert TokensOfAll(keys) + ts == ts;
    } else {
      var more := TokensOfAll(keys[1..]) + ts;
      AppendAssoc(TokensOf(keys[0]), TokensOfAll(keys[1..]), ts);
      ParseQuery(lib, keys[0], more);
      Start(lib, keys[0]);
      StepList(lib, TokensOfAll(keys) + ts, left);
      ListCrash(lib, keys[1..], Some(Joined(left, Build(lib, keys[0]))), ts);
    }
  }

  lemma EndCrash(lib: Library, keys: seq<Query>)
    requires keys != [] && GoodAll(lib, keys)
    ensures ParseKey(lib, ["("] + TokensOfAll(keys)) == Crash
  {
    hide ParseKey, ParseList, Build, Good, TokensOf;
    Start(lib, keys[0]);
    ParseQueries(lib, keys, None, []);
    assert TokensOfAll(keys) + [] == TokensOfAll(keys);
    OpenCrash(lib, TokensOfAll(keys));
  }

  /** Whoever leads the parser to such a place makes it abort, whatever follows. */
  lemma {:induction false} CrashAt(lib: Library, p: Place, rest: seq<string>)
    requires GoodPlace(lib, p) && (AtEnd(p) ==> rest == [])
    ensures ParseKey(lib, Path(p) + rest) == Crash
  {
    hide ParseKey, ParseList, Build, Good, GoodAll, TokensOf, TokensOfAll;
    match p {
      case Unkeyword(name) => UnkeywordAborts(lib, name, rest);
      case Unclosed(keys) =>
        EndCrash(lib, keys);
        assert Path(p) + rest == Path(p);
      case InNot(word, inner) =>
        CrashAt(lib, inner, rest);
        PathStart(lib, inner);
        NotCrash(lib, word, Path(inner) + rest);
        AppendAssoc([word], Path(inner), rest);
      case InLeft(word, inner) =>
        CrashAt(lib, inner, rest);
        PathStart(lib, inner);
        OrCrash(lib, word, Path(inner) + rest);
        AppendAssoc([word], Path(inner), rest);
      case InRight(word, l, inner) =>
        CrashAt(lib, inner, rest);
        PathStart(lib, inner);
        ParseQuery(lib, l, Path(inner) + rest);
        Start(lib, l);
        OrCrash(lib, word, TokensOf(l) + (Path(inner) + rest));
        Twice([word], TokensOf(l), Path(inner), rest);
      case InGroup(keys, inner) =>
        CrashAt(lib, inner, rest);
        PathStart(lib, inner);
        ListCrash(lib, keys, None, Path(inner) + rest);
        OpenCrash(lib, TokensOfAll(keys) + (Path(inner) + rest));
        Twice(["("], TokensOfAll(keys), Path(inner), rest);
    }
  }

  /** The tokens lead there. */
  ghost predicate Leads(lib: Library, ts: seq<string>, p: Place) {
    GoodPlace(lib, p) && Path(p) <= ts && (AtEnd(p) ==> ts == Path(p))
  }

  lemma LeadsOn(lib: Library, ts: seq<string>, head: seq<string>, more: seq<string>, q: Place, p: Place)
    requires ts == head + more && Leads(lib, more, q)
    requires GoodPlace(lib, p) && Path(p) == head + Path(q) && AtEnd(p) == AtEnd(q)
    ensures Leads(lib, ts, p)
  {
    hide GoodPlace, Path, AtEnd;
    var n := |Path(q)|;
    assert more == Path(q) + more[n..];
    AppendAssoc(head, Path(q), more[n..]);
  }

  /** Where a key aborts, the parser was led to such a place. */
  lemma {:induction false} FindPlace(lib: Library, ts: seq<string>) returns (p: Place)
    requires Sane(lib) && ts != [] && ParseKey(lib, ts) == Crash
    ensures Leads(lib, ts, p)
    decreases |ts|, 1
  {
    hide KeywordOf, ParseList, ParseSimple, MacroTokens, MacroName, GoodAll, Sane, Leads, TokensOf, TokensOfAll;
    SpelledSo(ts[0]);
    var w, more := ts[0], ts[1..];
    assert ts == [w] + more;
    match KeywordOf(w) {
      case KOpen =>
        p := FindInGroup(lib, ts);
      case KNot =>
        var q := FindPlace(lib, more);
        p := InNot(w, q);
        GoodInside(lib, more, q);
        LeadsOn(lib, ts, [w], more, q, p);
      case KOr =>
        if ParseKey(lib, more) == Crash {
          var q := FindPlace(lib, more);
          p := InLeft(w, q);
          GoodInside(lib, more, q);
          LeadsOn(lib, ts, [w], more, q, p);
        } else {
          var l := Read(lib, more);
          var rest := ParseKey(lib, more).rest;
          var q := FindPlace(lib, rest);
          p := InRight(w, l, q);
          GoodInside(lib, rest, q);
          AppendAssoc([w], TokensOf(l), rest);
          LeadsOn(lib, ts, [w] + TokensOf(l), rest, q, p);
        }
      case KMacro(m) =>
        p := Unkeyword(w);
        UnkeywordName();
        if m != UNKEYWORD {
          MacroAtKey(lib, m, w, more);
        }
        AtUnkeyword(lib, ts);
      case _ =>
        SimpleNoCrash(lib, ts);
        assert false;
    }
  }

  lemma UnkeywordName()
    ensures MacroName(UNKEYWORD) == "UNKEYWORD"
  {
  }

  lemma SimpleNoCrash(lib: Library, ts: seq<string>)
    requires ts != []
    ensures ParseSimple(lib, ts) != Crash
  {
    hide KeywordOf, ParseArgs;
  }

  lemma GoodInside(lib: Library, ts: seq<string>, p: Place)
    requires Leads(lib, ts, p)
    ensures GoodPlace(lib, p)
  {
  }

  lemma AtUnkeyword(lib: Library, ts: seq<string>)
    requires ts != [] && EqNoCase(ts[0], "UNKEYWORD")
    ensures Leads(lib, ts, Unkeyword(ts[0]))
  {
  }

  lemma {:induction false} FindInGroup(lib: Library, ts: seq<string>) returns (p: Place)
    requires Sane(lib) && ts != [] && ParseKey(lib, ts) == Crash && KeywordOf(ts[0]) == KOpen
    ensures Leads(lib, ts, p)
    decreases |ts|, 0
  {
    hide KeywordOf, ParseList, Leads, GoodAll, Sane, TokensOfAll;
    SpelledSo(ts[0]);
    var more := ts[1..];
    assert ts == ["("] + more;
    if ParseList(lib, more, None).Tree? {
      var keys := ReadList(lib, more, None);
      p := Unclosed(keys);
      assert TokensOfAll(keys) + [] == TokensOfAll(keys);
      AtUnclosed(lib, keys);
    } else {
      var keys, q := FindInList(lib, more, None);
      p := InGroup(keys, q);
      var n := |TokensOfAll(keys)|;
      GoodInside(lib, more[n..], q);
      AppendAssoc(["("], TokensOfAll(keys), more[n..]);
      LeadsOn(lib, ts, ["("] + TokensOfAll(keys), more[n..], q, p);
    }
  }

  lemma AtUnclosed(lib: Library, keys: seq<Query>)
    requires keys != [] && GoodAll(lib, keys)
    ensures Leads(lib, ["("] + TokensOfAll(keys), Unclosed(keys))
  {
  }

  lemma {:induction false} FindInList(lib: Library, ts: seq<string>, left: Option<Node>)
    returns (keys: seq<Query>, p: Place)
    requires Sane(lib) && ParseList(lib, ts, left) == Crash
    ensures GoodAll(lib, keys) && TokensOfAll(keys) <= ts
    ensures Leads(lib, ts[|TokensOfAll(keys)|..], p)
    decreases |ts|, 2
  {
    hide ParseKey, TokensOf, Good, Sane, Leads;
    var k := ParseKey(lib, ts);
    if k == Crash {
      keys := [];
      p := FindPlace(lib, ts);
      assert ts[0..] == ts;
    } else {
      var q := Read(lib, ts);
      var more;
      more, p := FindInList(lib, k.rest, Some(Joined(left, k.node)));
      keys := [q] + more;
      assert keys[1..] == more;
      var n := |TokensOfAll(more)|;
      assert k.rest == TokensOfAll(more) + k.rest[n..];
      AppendAssoc(TokensOf(q), TokensOfAll(more), k.rest[n..]);
      assert ts[|TokensOfAll(keys)|..] == k.rest[n..];
    }
  }

  /** The statement leads to such a place behind some keys of the grammar. */
  ghost predicate Aborts(lib: Library, ts: seq<string>, keys: seq<Query>, p: Place) {
    GoodAll(lib, keys) && TokensOfAll(keys) <= ts && Leads(lib, ts[|TokensOfAll(keys)|..], p)
  }

  /** The parser aborts on the keys of a statement if and only if they lead it, over keys
      of the grammar only, to UNKEYWORD where a key is due, or to the end of the tokens
      behind a parenthesised key. */
  lemma KeysAbortExactly(lib: Library, ts: seq<string>)
    requires Sane(lib)
    ensures Compile(lib, ts) == Crash <==> exists keys, p :: Aborts(lib, ts, keys, p)
  {
    hide ParseList, ParseKey, TokensOfAll, GoodAll, Sane, Leads;
    if Compile(lib, ts) == Crash {
      var keys, p := FindInList(lib, ts, None);
      assert Aborts(lib, ts, keys, p);
    }
    forall keys, p | Aborts(lib, ts, keys, p) ensures Compile(lib, ts) == Crash {
      AbortCrash(lib, ts, keys, p);
    }
  }

  lemma AbortCrash(lib: Library, ts: seq<string>, keys: seq<Query>, p: Place)
    requires Aborts(lib, ts, keys, p)
    ensures Compile(lib, ts) == Crash
  {
    hide ParseKey, ParseList, TokensOfAll, GoodAll, GoodPlace, Path, AtEnd;
    var at := ts[|TokensOfAll(keys)|..];
    var rest := at[|Path(p)|..];
    PathStart(lib, p);
    assert at == Path(p) + rest;
    CrashAt(lib, p, rest);
    ListCrash(lib, keys, None, at);
    assert ts == TokensOfAll(keys) + at;
  }

  /** The server aborts on a statement if and only if the statement is empty or the word
      CHARSET alone, or its keys lead the parser to such a place. */
  lemma AbortsExactly(lib: Library, ts: seq<string>)
    requires Sane(lib)
    ensures Search0(lib, ts) == Abort <==>
              WordMissing(ts) || (CharsetKnown(lib, ts) && exists keys, p :: Aborts(lib, KeyTokens(ts), keys, p))
  {
    hide Compile, Aborts, EqNoCase;
    KeysAbortExactly(lib, KeyTokens(ts));
  }

  /** A statement is carried out if and only if it has a key, its character set is known
      and its keys are queries of the grammar; and then their tree is. */
  lemma AcceptedExactly(lib: Library, ts: seq<string>)
    requires Sane(lib)
    ensures Search0(lib, ts).Ready? <==>
              !WordMissing(ts) && CharsetKnown(lib, ts) && exists keys :: IsStatement(lib, KeyTokens(ts), keys)
    ensures !WordMissing(ts) && CharsetKnown(lib, ts) ==>
              forall keys :: IsStatement(lib, KeyTokens(ts), keys) ==>
                Search0(lib, ts) == Ready(BuildFrom(lib, keys, None))
  {
    hide Compile, EqNoCase, BuildFrom, TokensOfAll, GoodAll;
    CompilesExactly(lib, KeyTokens(ts));
  }

  /** SEARCH without any key, SEARCH CHARSET, and SEARCH with a character set only. */
  lemma EmptySearches(lib: Library)
    ensures Search0(lib, []) == Search0(lib, ["CHARSET"]) == Abort
    ensures Search0(lib, ["CHARSET", "US-ASCII"]) == Bad("Parse error")
  {
    assert ["CHARSET", "US-ASCII"][2..] == [];
  }
}
