/** Printing a section, lexing the text, splitting it into pieces and parsing them
    gives the section back. */
module SectionRoundTrip {
  import opened Common
  import opened Lexer
  import opened ParseBuf
  import opened Section

  /** A header name that the lexers leave in one piece. */
  predicate PlainName(w: string) {
    IsWord(w) && forall i :: 0 <= i < |w| ==> w[i] !in DELIMS
  }

  predicate PlainNames(names: seq<string>) {
    forall i :: 0 <= i < |names| ==> PlainName(names[i])
  }

  // ---------- the pieces of a printed section ----------

  function PartPieces(parts: seq<nat>): seq<string> {
    if parts == [] then []
    else if |parts| == 1 then [Dec(parts[0])]
    else [Dec(parts[0]), "."] + PartPieces(parts[1..])
  }

  /** The pieces that name the section text. */
  function TextPieces(c: Closure): seq<string> {
    if c.fun == HeaderFields then ["HEADER", ".", "FIELDS"] + (if c.negated then [".", "NOT"] else [])
    else if c.tag.Some? then [c.tag.value] else []
  }

  /** The pieces up to the closing bracket or the opening parenthesis. */
  function HeadPieces(c: Closure): seq<string> {
    PartPieces(c.parts) + (if c.parts != [] && TextPieces(c) != [] then ["."] else []) + TextPieces(c)
  }

  function TailPieces(c: Closure): seq<string> {
    if c.fun == HeaderFields then ["("] + c.headers + [")", "]"] else ["]"]
  }

  // ---------- parsing the pieces ----------

  lemma NumberOf(n: nat)
    requires n <= ULONG_MAX
    ensures GetNumber(Dec(n)) == Ok(n)
  {
    assert Dec(n) + [] == Dec(n);
    StrtoulDec(n, []);
  }

  lemma ParsePartStep(n: nat, more: seq<string>)
    requires n <= ULONG_MAX && more != [] && IsDigit(C0(more[0])) && ParseParts(more).Ok?
    ensures ParseParts([Dec(n), "."] + more) == Ok(([n] + ParseParts(more).value.0, ParseParts(more).value.1))
  {
    hide GetNumber, Dec;
    NumberOf(n);
    var ps := [Dec(n), "."] + more;
    assert ps[1..] == ["."] + more && ps[1..][1..] == more;
  }

  lemma ParsePartLast(n: nat, tail: seq<string>)
    requires n <= ULONG_MAX
    requires tail != [] && !(C0(tail[0]) == '.' && |tail| > 1 && IsDigit(C0(tail[1])))
    ensures ParseParts([Dec(n)] + tail) == Ok(([n], tail))
  {
    hide GetNumber, Dec;
    NumberOf(n);
    assert ([Dec(n)] + tail)[1..] == tail;
  }

  lemma {:induction false} ParsePartPieces(parts: seq<nat>, tail: seq<string>)
    requires parts != [] && forall i :: 0 <= i < |parts| ==> parts[i] <= ULONG_MAX
    requires tail != [] && !(C0(tail[0]) == '.' && |tail| > 1 && IsDigit(C0(tail[1])))
    ensures ParseParts(PartPieces(parts) + tail) == Ok((parts, tail))
  {
    hide Dec, ParseParts;
    if |parts| == 1 {
      ParsePartLast(parts[0], tail);
      assert parts == [parts[0]];
    } else {
      var more := PartPieces(parts[1..]) + tail;
      assert more[0] == Dec(parts[1]) && IsDigit(C0(more[0]));
      ParsePartPieces(parts[1..], tail);
      ParsePartStep(parts[0], more);
      assert PartPieces(parts) + tail == [Dec(parts[0]), "."] + more;
      assert parts == [parts[0]] + parts[1..];
    }
  }

  lemma {:induction false} ParseNamePieces(names: seq<string>, tail: seq<string>)
    requires PlainNames(names)
    ensures ParseNames(names + ([")"] + tail)) == Ok((names, [")"] + tail))
  {
    var ps := names + ([")"] + tail);
    if names != [] {
      assert ps[0] == names[0] && PlainName(ps[0]);
      assert forall c :: c in HEADER_DELIMS ==> IsParen(c) || c in DELIMS;
      assert names == [names[0]] + names[1..];
      assert ps[1..] == names[1..] + ([")"] + tail);
      ParseNamePieces(names[1..], tail);
    } else {
      assert ps == [")"] + tail;
    }
  }

  lemma ParseFieldsTail(names: seq<string>, rest: seq<string>)
    requires PlainNames(names)
    ensures ParseHeaderList(["("] + names + [")", "]"] + rest) == Ok((names, ["]"] + rest))
  {
    var ps := ["("] + names + [")", "]"] + rest;
    var tail := ["]"] + rest;
    assert ps[1..] == names + ([")"] + tail);
    ParseNamePieces(names, tail);
    assert ([")"] + tail)[1..] == tail;
  }

  lemma Keywords()
    ensures EqNoCase("HEADER", "HEADER") && EqNoCase("FIELDS", "FIELDS") && EqNoCase("NOT", "NOT")
    ensures EqNoCase("TEXT", "TEXT") && EqNoCase("MIME", "MIME")
    ensures !EqNoCase("TEXT", "HEADER") && !EqNoCase("MIME", "HEADER") && !EqNoCase("MIME", "TEXT")
    ensures !EqNoCase("]", "HEADER") && !EqNoCase("]", "TEXT") && !EqNoCase("]", "MIME")
  {
    assert Fold("MIME")[0] == 'M' && Fold("TEXT")[0] == 'T';
  }

  lemma NumberIsNoKeyword(n: nat)
    ensures !EqNoCase(Dec(n), "HEADER") && !EqNoCase(Dec(n), "TEXT")
  {
    assert Fold(Dec(n))[0] == Dec(n)[0];
    assert Fold("HEADER")[0] == 'H' && Fold("TEXT")[0] == 'T';
  }

  /** What stands behind HEADER.FIELDS. */
  lemma ParseFieldPieces(c0: Closure, c: Closure, rest: seq<string>)
    requires PlainNames(c.headers) && c.fun == HeaderFields && Standard(c) && c0 == INITIAL.(parts := c.parts)
    ensures var tail := TailPieces(c) + rest;
            ParseFields((if c.negated then [".", "NOT"] else []) + tail, c0) == Ok((c, ["]"] + rest))
  {
    hide EqNoCase, ParseHeaderList;
    Keywords();
    var tail := TailPieces(c) + rest;
    ParseFieldsTail(c.headers, rest);
    assert tail == ["("] + c.headers + [")", "]"] + rest;
    if c.negated {
      var ps := [".", "NOT"] + tail;
      assert ps[1..][1..] == tail;
    } else {
      var none: seq<string> := [];
      assert none + tail == tail;
    }
  }

  /** A section text that is one word, and the brackets behind it. */
  lemma ParseTagPieces(c0: Closure, c: Closure, mime: bool, rest: seq<string>)
    requires c0 == INITIAL.(parts := c.parts)
    requires (c.fun == Header || c.fun == BodyText || c.fun == Mime) && Standard(c) && (c.fun == Mime ==> mime)
    ensures ParseText(TextPieces(c) + (TailPieces(c) + rest), c0, mime) == Ok(Some((c, ["]"] + rest)))
  {
    hide EqNoCase, ParseFields;
    Keywords();
    var ps := [c.tag.value] + (["]"] + rest);
    assert ps[1..] == ["]"] + rest;
  }

  lemma TailNotEmpty(c: Closure)
    ensures TailPieces(c) != []
  {
  }

  /** The section text HEADER.FIELDS, and what stands behind it. */
  lemma ParseFieldsText(c0: Closure, mime: bool, more: seq<string>)
    requires more != []
    ensures ParseText(["HEADER", ".", "FIELDS"] + more, c0, mime)
         == match ParseFields(more, c0) case Err(e) => Err(e) case Ok(p) => Ok(Some(p))
  {
    hide EqNoCase, ParseFields;
    Keywords();
    var ps := ["HEADER", ".", "FIELDS"] + more;
    var qs := [".", "FIELDS"] + more;
    assert ps[1..] == qs && qs[1..][1..] == more;
    assert ParseHeader(qs, c0) == ParseFields(more, c0);
  }

  /** The section text behind the part numbers, or with none. */
  lemma ParseTextPieces(c0: Closure, c: Closure, mime: bool, rest: seq<string>)
    requires c.fun == HeaderFields ==> PlainNames(c.headers)
    requires c0 == INITIAL.(parts := c.parts)
    requires c.fun != Body && c.fun != BodyN && Standard(c) && (c.fun == Mime ==> mime)
    ensures ParseText(TextPieces(c) + (TailPieces(c) + rest), c0, mime) == Ok(Some((c, ["]"] + rest)))
  {
    hide ParseText, ParseFields, Standard, TailPieces, PlainNames;
    var tail := TailPieces(c) + rest;
    if c.fun == HeaderFields {
      ParseFieldPieces(c0, c, rest);
      var more := (if c.negated then [".", "NOT"] else []) + tail;
      TailNotEmpty(c);
      ParseFieldsText(c0, mime, more);
      assert ["HEADER", ".", "FIELDS"] + more == TextPieces(c) + tail;
    } else {
      ParseTagPieces(c0, c, mime, rest);
    }
  }

  /** Parsing inverts the list of pieces, whatever follows the section. */
  lemma ParsePieces(c: Closure, rest: seq<string>)
    requires Standard(c) && (c.fun == HeaderFields ==> PlainNames(c.headers))
    ensures ParseSection(["["] + HeadPieces(c) + TailPieces(c) + rest) == Ok(Some((c, rest)))
  {
    hide ParseSpec, HeadPieces, Standard, PlainNames;
    var ps := ["["] + HeadPieces(c) + TailPieces(c) + rest;
    var qs := HeadPieces(c) + (TailPieces(c) + rest);
    assert ps[1..] == qs;
    ParseSpecPieces(c, rest);
    var end := ["]"] + rest;
    assert end[1..] == rest && C0(end[0]) == ']';
  }

  lemma ParseSpecPieces(c: Closure, rest: seq<string>)
    requires Standard(c) && (c.fun == HeaderFields ==> PlainNames(c.headers))
    ensures ParseSpec(HeadPieces(c) + (TailPieces(c) + rest)) == Ok((c, ["]"] + rest))
  {
    hide EqNoCase, ParseText, ParseParts;
    var tail := TailPieces(c) + rest;
    var qs := HeadPieces(c) + tail;
    if c.parts == [] {
      if c.fun == Body {
        assert qs == ["]"] + rest;
        NoText(qs, INITIAL, false);
      } else {
        assert qs == TextPieces(c) + tail;
        ParseTextPieces(INITIAL, c, false, rest);
      }
    } else {
      NumberIsNoKeyword(c.parts[0]);
      assert qs[0] == Dec(c.parts[0]);
      NoText(qs, INITIAL, false);
      ParseNumberedPieces(c, rest);
    }
  }

  lemma NoText(ps: seq<string>, c: Closure, mime: bool)
    requires ps != []
    requires ps[0] == "]" || exists n :: ps[0] == Dec(n) && !mime
    ensures ParseText(ps, c, mime) == Ok(None)
  {
    Keywords();
    if n :| ps[0] == Dec(n) {
      NumberIsNoKeyword(n);
    }
  }

  lemma ParseNumberedPieces(c: Closure, rest: seq<string>)
    requires Standard(c) && (c.fun == HeaderFields ==> PlainNames(c.headers)) && c.parts != []
    ensures ParseNumbered(HeadPieces(c) + (TailPieces(c) + rest)) == Ok((c, ["]"] + rest))
  {
    hide EqNoCase, ParseText, ParseParts;
    var tail := TailPieces(c) + rest;
    if c.fun == BodyN {
      assert HeadPieces(c) + tail == PartPieces(c.parts) + (["]"] + rest);
      ParsePartPieces(c.parts, ["]"] + rest);
    } else {
      var text := TextPieces(c) + tail;
      assert HeadPieces(c) + tail == PartPieces(c.parts) + (["."] + text);
      assert (["."] + text)[1..] == text;
      ParsePartPieces(c.parts, ["."] + text);
      ParseTextPieces(INITIAL.(parts := c.parts), c, true, rest);
    }
  }

  // ---------- from the printed text to the pieces ----------

  lemma {:induction false} ConcatAppend(a: seq<string>, b: seq<string>)
    ensures Concat(a + b) == Concat(a) + Concat(b)
  {
    if a == [] {
      assert a + b == b;
    } else {
      ConcatAppend(a[1..], b);
      assert (a + b)[1..] == a[1..] + b && (a + b)[0] == a[0];
      var x, y := Concat(a[1..]), Concat(b);
      AppendAssoc(a[0], x, y);
    }
  }

  lemma MaximalAppend(a: seq<string>, b: seq<string>, delims: string)
    requires Maximal(a, delims) && Maximal(b, delims)
    requires a != [] && b != [] ==> IsDelimiter(a[|a| - 1], delims) || IsDelimiter(b[0], delims)
    ensures Maximal(a + b, delims)
  {
    var ps := a + b;
    assert forall i :: |a| <= i < |ps| ==> ps[i] == b[i - |a|];
  }

  lemma RunSpanOf(p: string, rest: string, delims: string)
    requires IsRun(p, delims) && (rest == [] || rest[0] in delims)
    ensures RunSpan(p + rest, delims) == |p|
  {
    var s := p + rest;
    assert forall i :: 0 <= i < |p| ==> s[i] !in delims;
    assert rest != [] ==> s[|p|] in delims;
  }

  /** Splitting inverts concatenation on maximal pieces: no other list of runs and
      delimiters makes up the same text. */
  lemma {:induction false} SplitInverse(ps: seq<string>, delims: string)
    requires Maximal(ps, delims)
    ensures Split(Concat(ps), delims) == ps
  {
    if ps == [] {
      SplitNothing(delims);
    } else {
      var p, more := ps[0], ps[1..];
      assert forall i :: 0 <= i < |more| ==> more[i] == ps[i + 1];
      SplitInverse(more, delims);
      var rest := Concat(more);
      assert more != [] ==> more[0] != [] && rest[0] == more[0][0];
      FirstOfConcat(p, rest, delims);
      SplitHead(p + rest, delims);
      assert (p + rest)[..|p|] == p && (p + rest)[|p|..] == rest;
      assert ps == [p] + more;
    }
  }

  lemma FirstOfConcat(p: string, rest: string, delims: string)
    requires IsDelimiter(p, delims) || (IsRun(p, delims) && (rest == [] || rest[0] in delims))
    ensures p != [] && PieceLen(p + rest, delims) == |p|
  {
    if !IsDelimiter(p, delims) {
      RunSpanOf(p, rest, delims);
      assert (p + rest)[0] == p[0];
    }
  }

  /** No blank and no parenthesis: nothing the first lexer would stop at. */
  predicate Plain(p: string) {
    forall i :: 0 <= i < |p| ==> !IsBlank(p[i]) && !IsParen(p[i])
  }

  lemma {:induction false} ConcatPlain(ps: seq<string>)
    requires forall i :: 0 <= i < |ps| ==> Plain(ps[i])
    ensures Plain(Concat(ps))
  {
    if ps != [] {
      ConcatPlain(ps[1..]);
    }
  }

  lemma {:induction false} PartText(parts: seq<nat>)
    ensures Concat(PartPieces(parts)) == PrintParts(parts)
    ensures Maximal(PartPieces(parts), DELIMS)
    ensures parts != [] ==> PartPieces(parts) != [] && IsRun(PartPieces(parts)[|PartPieces(parts)| - 1], DELIMS)
    ensures forall i :: 0 <= i < |PartPieces(parts)| ==> Plain(PartPieces(parts)[i])
  {
    if parts != [] {
      var d := Dec(parts[0]);
      assert IsRun(d, DELIMS) && Plain(d);
      OneDelimiter(".");
      hide IsRun, IsDelimiter, Plain, Dec;
      if |parts| == 1 {
        assert Concat([d]) == d + Concat([]);
      } else {
        var more := PartPieces(parts[1..]);
        PartText(parts[1..]);
        MaximalCons(".", more, DELIMS);
        MaximalCons(d, ["."] + more, DELIMS);
        assert [d, "."] + more == [d] + (["."] + more);
        assert (["."] + more)[1..] == more && ([d] + (["."] + more))[1..] == ["."] + more;
      }
    }
  }

  function TextOf(c: Closure): string {
    if c.fun == HeaderFields then "HEADER.FIELDS" + (if c.negated then ".NOT" else "")
    else if c.tag.Some? then c.tag.value else ""
  }

  lemma TextText(c: Closure)
    requires Standard(c)
    ensures Concat(TextPieces(c)) == TextOf(c) && Maximal(TextPieces(c), DELIMS)
    ensures TextPieces(c) == [] <==> TextOf(c) == []
    ensures forall i :: 0 <= i < |TextPieces(c)| ==> Plain(TextPieces(c)[i])
  {
    if c.fun == HeaderFields {
      FieldsText(c.negated);
    } else if c.tag.Some? {
      TagText(c.tag.value);
    }
  }

  lemma TagText(tag: string)
    requires tag == "HEADER" || tag == "TEXT" || tag == "MIME"
    ensures Concat([tag]) == tag && Maximal([tag], DELIMS) && Plain(tag)
  {
    assert [tag][1..] == [] && tag + [] == tag;
    assert IsRun("HEADER", DELIMS) && IsRun("TEXT", DELIMS) && IsRun("MIME", DELIMS);
  }

  lemma MaximalThree(x: string, y: string, z: string)
    requires IsRun(x, DELIMS) && IsDelimiter(y, DELIMS) && IsRun(z, DELIMS)
    ensures Maximal([x, y, z], DELIMS) && Maximal([y, z], DELIMS)
  {
  }

  lemma FieldWords()
    ensures IsRun("HEADER", DELIMS) && IsRun("FIELDS", DELIMS) && IsRun("NOT", DELIMS)
    ensures Plain("HEADER") && Plain("FIELDS") && Plain("NOT")
  {
  }

  lemma FieldsText(negated: bool)
    ensures var ps := ["HEADER", ".", "FIELDS"] + (if negated then [".", "NOT"] else []);
            && Concat(ps) == "HEADER.FIELDS" + (if negated then ".NOT" else "")
            && Maximal(ps, DELIMS) && forall i :: 0 <= i < |ps| ==> Plain(ps[i])
  {
    var a, b := ["HEADER", ".", "FIELDS"], if negated then [".", "NOT"] else [];
    hide Concat, Maximal, IsRun, IsDelimiter, Plain;
    FieldWords();
    DotShape();
    MaximalThree("HEADER", ".", "FIELDS");
    MaximalThree("NOT", ".", "NOT");
    MaximalAppend(a, b, DELIMS);
    ConcatAppend(a, b);
    ConcatThree("HEADER", ".", "FIELDS");
    ConcatTwo(".", "NOT");
  }

  lemma ConcatTwo(a: string, b: string)
    ensures Concat([a, b]) == a + b
  {
    var t, u: seq<string> := [b], [];
    assert t[1..] == u && Concat(u) == [] && b + [] == b && Concat(t) == b;
    assert [a, b][1..] == t;
  }

  lemma ConcatThree(a: string, b: string, c: string)
    ensures Concat([a, b, c]) == a + b + c
  {
    assert [a, b, c][1..] == [b, c];
    ConcatTwo(b, c);
    assert a + (b + c) == a + b + c;
  }

  /** The text up to the closing bracket or the blank before the header names. */
  function HeadText(c: Closure): string {
    "BODY[" + PrintParts(c.parts) + (if c.parts != [] && TextOf(c) != [] then "." else "") + TextOf(c)
  }

  lemma HeadShape(c: Closure)
    requires Standard(c)
    ensures Concat(["BODY", "["] + HeadPieces(c)) == HeadText(c)
    ensures Maximal(["BODY", "["] + HeadPieces(c), DELIMS)
    ensures forall i :: 0 <= i < |HeadPieces(c)| ==> Plain(HeadPieces(c)[i])
  {
    hide Maximal, IsDelimiter, IsRun, Plain, Concat, PartPieces, TextPieces, TextOf, PrintParts, Standard;
    PartText(c.parts);
    TextText(c);
    var parts, text := PartPieces(c.parts), TextPieces(c);
    var dot := if c.parts != [] && text != [] then ["."] else [];
    DotShape();
    MaximalAppend(parts, dot, DELIMS);
    MaximalAppend(parts + dot, text, DELIMS);
    MaximalAppend(["BODY", "["], parts + dot + text, DELIMS);
    ConcatAppend(parts, dot);
    ConcatAppend(parts + dot, text);
    ConcatAppend(["BODY", "["], parts + dot + text);
    ConcatTwo("BODY", "[");
    assert HeadPieces(c) == parts + dot + text;
  }

  lemma DotShape()
    ensures Maximal(["."], DELIMS) && Maximal([], DELIMS) && IsDelimiter(".", DELIMS) && Concat(["."]) == "."
    ensures Concat([]) == [] && PartPieces([]) == [] && Plain(".")
    ensures Maximal(["BODY", "["], DELIMS) && IsDelimiter("[", DELIMS)
    ensures Maximal(["]"], DELIMS) && IsDelimiter("]", DELIMS) && Concat(["]"]) == "]"
    ensures Plain("BODY") && Plain("[") && Plain("]")
  {
    OneDelimiter(".");
    OneDelimiter("[");
    OneDelimiter("]");
    BodyShape();
  }

  lemma OneDelimiter(d: string)
    requires |d| == 1 && d[0] in DELIMS
    ensures IsDelimiter(d, DELIMS) && Maximal([d], DELIMS) && Concat([d]) == d && Plain(d)
  {
    var none: seq<string> := [];
    assert [d][1..] == none && Concat(none) == [] && d + [] == d;
  }

  lemma BodyShape()
    ensures Maximal(["BODY", "["], DELIMS) && Plain("BODY")
  {
    hide Plain;
    assert IsRun("BODY", DELIMS) && IsDelimiter("[", DELIMS);
    BodyWord();
  }

  lemma BodyWord()
    ensures Plain("BODY")
  {
  }

  /** Pieces that may stand behind the closing bracket. */
  ghost predicate Follow(more: seq<string>) {
    && Maximal(more, DELIMS) && (more != [] ==> IsDelimiter(more[0], DELIMS))
    && forall i :: 0 <= i < |more| ==> Plain(more[i])
  }

  lemma NothingFollows()
    ensures Follow([]) && Concat([]) == []
  {
  }

  /** The closing bracket and what follows it is a single word. */
  lemma BracketWord(more: seq<string>)
    requires Follow(more)
    ensures Maximal(["]"] + more, DELIMS) && Concat(["]"] + more) == "]" + Concat(more)
    ensures forall i :: 0 <= i < |["]"] + more| ==> Plain((["]"] + more)[i])
    ensures IsWord("]" + Concat(more)) && Split("]" + Concat(more), DELIMS) == ["]"] + more
  {
    hide Maximal, IsDelimiter, IsRun, Concat, Plain, Split;
    DotShape();
    MaximalAppend(["]"], more, DELIMS);
    ConcatAppend(["]"], more);
    SplitInverse(["]"] + more, DELIMS);
    ConcatPlain(["]"] + more);
    PlainWord("]" + Concat(more));
  }

  lemma PlainWord(w: string)
    requires Plain(w) && w != [] && w[0] != '"'
    ensures IsWord(w)
  {
  }

  /** Every section but HEADER.FIELDS is printed as a single word. */
  lemma PrintedWord(c: Closure, more: seq<string>)
    requires Standard(c) && c.fun != HeaderFields && Follow(more)
    ensures IsWord(Print(c) + Concat(more))
    ensures Split(Print(c) + Concat(more), DELIMS) == ["BODY", "["] + HeadPieces(c) + (["]"] + more)
  {
    hide Maximal, IsDelimiter, IsRun, Concat, PartPieces, TextPieces, HeadPieces, PrintParts, Plain, Split;
    HeadShape(c);
    BracketWord(more);
    var head, tail := ["BODY", "["] + HeadPieces(c), ["]"] + more;
    PrintedHeadText(c);
    AppendAssoc(HeadText(c), "]", Concat(more));
    ConcatAppend(head, tail);
    BracketFirst(more);
    MaximalAppend(head, tail, DELIMS);
    SplitInverse(head + tail, DELIMS);
    PlainHead(c);
    ConcatPlain(head + tail);
    PlainWord(HeadText(c) + ("]" + Concat(more)));
  }

  lemma PrintedHeadText(c: Closure)
    requires Standard(c) && c.fun != HeaderFields
    ensures Print(c) == HeadText(c) + "]" && HeadText(c) != [] && HeadText(c)[0] == 'B'
  {
    hide PrintParts;
  }

  lemma PlainHead(c: Closure)
    requires Standard(c)
    ensures var head := ["BODY", "["] + HeadPieces(c); forall i :: 0 <= i < |head| ==> Plain(head[i])
  {
    hide Plain, HeadPieces, Standard;
    HeadShape(c);
    DotShape();
  }

  lemma BracketFirst(more: seq<string>)
    ensures (["]"] + more)[0] == "]" && IsDelimiter("]", DELIMS)
  {
    OneDelimiter("]");
  }

  /** HEADER.FIELDS up to its parenthesis is a single word. */
  lemma PrintedHead(c: Closure)
    requires Standard(c)
    ensures IsWord(HeadText(c))
    ensures Split(HeadText(c), DELIMS) == ["BODY", "["] + HeadPieces(c)
  {
    hide Maximal, IsDelimiter, IsRun, Concat, PartPieces, TextPieces, HeadPieces, PrintParts;
    HeadShape(c);
    DotShape();
    SplitInverse(["BODY", "["] + HeadPieces(c), DELIMS);
    ConcatPlain(["BODY", "["] + HeadPieces(c));
  }

  // ---------- header names ----------

  /** The items of a printed HEADER.FIELDS, with a text behind its closing bracket. */
  function FieldItems(c: Closure, suffix: string): seq<Spaced> {
    [Spaced("", Word(HeadText(c))), Spaced(" ", Paren('('))] + WordItems(c.headers, true)
    + [Spaced("", Paren(')')), Spaced("", Word("]" + suffix))]
  }

  lemma RenderTwo(x: Spaced, y: Spaced)
    ensures Render([x, y]) == x.blanks + ItemText(x.item) + y.blanks + ItemText(y.item)
  {
    hide ItemText;
    var t, u: seq<Spaced> := [y], [];
    assert t[1..] == u && Render(u) == [] && Render(t) == y.blanks + ItemText(y.item);
    assert [x, y][1..] == t && [x, y][0] == x;
  }

  lemma FieldTokens(c: Closure, suffix: string)
    requires Standard(c) && c.fun == HeaderFields && PlainNames(c.headers) && IsWord("]" + suffix)
    ensures Lex(Print(c) + suffix) == Some([HeadText(c), "("] + c.headers + [")", "]" + suffix])
  {
    hide Lex, IsWord, HeadText, Render, WordItems, GoodLine, Print, Standard;
    var items := FieldItems(c, suffix);
    RenderFields(c, suffix);
    GoodFieldItems(c, suffix);
    LexRender(items);
    WordItemsShape(c.headers, true);
    assert Tokens(items) == [HeadText(c), "("] + c.headers + [")", "]" + suffix];
  }

  lemma RenderFields(c: Closure, suffix: string)
    requires c.fun == HeaderFields && PlainNames(c.headers)
    ensures Render(FieldItems(c, suffix)) == Print(c) + suffix
  {
    hide IsWord, HeadText, Render, WordItems, Print, PlainNames;
    WordItemsShape(c.headers, true);
    var a := [Spaced("", Word(HeadText(c))), Spaced(" ", Paren('('))];
    var b, d := WordItems(c.headers, true), [Spaced("", Paren(')')), Spaced("", Word("]" + suffix))];
    RenderTwo(a[0], a[1]);
    RenderTwo(d[0], d[1]);
    RenderAppend(a + b, d);
    RenderAppend(a, b);
    PrintFields(c);
    var h, names := HeadText(c), Join(c.headers);
    assert Render(a) == h + " (" && Render(b) == names;
    assert FieldItems(c, suffix) == a + b + d;
    Closing(h + " (" + names, suffix);
  }

  lemma Closing(head: string, suffix: string)
    ensures head + ("" + ")" + "" + ("]" + suffix)) == head + ")]" + suffix
  {
    assert ")]" == ")" + "]";
  }

  lemma PrintFields(c: Closure)
    requires c.fun == HeaderFields
    ensures Print(c) == HeadText(c) + " (" + Join(c.headers) + ")]"
  {
  }

  lemma GoodFieldItems(c: Closure, suffix: string)
    requires Standard(c) && c.fun == HeaderFields && PlainNames(c.headers) && IsWord("]" + suffix)
    ensures GoodLine(FieldItems(c, suffix))
  {
    hide IsWord, HeadText, WordItems, Standard, IsBlank, IsParen;
    PrintedHead(c);
    WordItemsShape(c.headers, true);
    Parens();
    var items, names := FieldItems(c, suffix), WordItems(c.headers, true);
    var n := |names|;
    assert items[0] == Spaced("", Word(HeadText(c))) && items[1] == Spaced(" ", Paren('('));
    assert items[n + 2] == Spaced("", Paren(')')) && items[n + 3] == Spaced("", Word("]" + suffix));
    forall i | 2 <= i < n + 2 ensures items[i] == names[i - 2] && IsWord(c.headers[i - 2]) {
      assert PlainName(c.headers[i - 2]);
    }
  }

  lemma Parens()
    ensures IsParen('(') && IsParen(')') && IsBlank(' ')
  {
  }

  lemma NameFirst(names: seq<string>)
    requires names != [] && PlainNames(names)
    ensures IsRun(names[0], DELIMS) && PlainNames(names[1..])
  {
  }

  lemma PiecesFirst(w: string, args: seq<string>)
    requires w != []
    ensures Pieces([w] + args, Some(DELIMS)) == Split(w, DELIMS) + Pieces(args, Some(DELIMS))
  {
    hide Split;
    assert ([w] + args)[1..] == args;
  }

  lemma {:induction false} PiecesOfNames(names: seq<string>, tail: seq<string>)
    requires PlainNames(names)
    ensures Pieces(names + tail, Some(DELIMS)) == names + Pieces(tail, Some(DELIMS))
  {
    if names == [] {
      assert names + tail == tail;
    } else {
      hide Pieces, Split, PlainNames;
      var w, more := names[0], names[1..];
      NameFirst(names);
      PiecesOfNames(more, tail);
      WholeRun(w);
      PiecesFirst(w, more + tail);
      AppendAssoc([w], more, tail);
      AppendAssoc([w], more, Pieces(tail, Some(DELIMS)));
      assert names == [w] + more;
    }
  }

  lemma WholeRun(w: string)
    requires IsRun(w, DELIMS) || IsDelimiter(w, DELIMS)
    ensures Split(w, DELIMS) == [w]
  {
    assert Maximal([w], DELIMS);
    SplitInverse([w], DELIMS);
    assert [w][1..] == [] && w + [] == w;
  }

  // ---------- the round trip ----------

  /** What the client sends when it repeats the text: its tokens, then their pieces. */
  function PiecesOfText(text: string): seq<string> {
    match Lex(text)
    case None => []
    case Some(args) => Pieces(args, Some(DELIMS))
  }

  lemma FieldPieces(c: Closure, more: seq<string>)
    requires Standard(c) && c.fun == HeaderFields && PlainNames(c.headers) && Follow(more)
    ensures Pieces([HeadText(c), "("] + c.headers + [")", "]" + Concat(more)], Some(DELIMS))
         == ["BODY"] + (["["] + HeadPieces(c) + TailPieces(c) + more)
  {
    hide Split, HeadPieces, HeadText, Standard, PlainNames, Pieces, Concat, Follow;
    PrintedHead(c);
    BracketPieces(more);
    var w, tail := HeadText(c), [")", "]" + Concat(more)];
    PiecesOfNames(c.headers, tail);
    PiecesFirst("(", c.headers + tail);
    PiecesFirst(w, ["("] + (c.headers + tail));
    assert [w] + (["("] + (c.headers + tail)) == [w, "("] + c.headers + tail;
    FieldsJoined(HeadPieces(c), c.headers, more);
    assert TailPieces(c) == ["("] + c.headers + [")", "]"];
  }

  lemma FieldsJoined(head: seq<string>, names: seq<string>, more: seq<string>)
    ensures ["BODY", "["] + head + (["("] + (names + ([")", "]"] + more)))
         == ["BODY"] + (["["] + head + (["("] + names + [")", "]"]) + more)
  {
  }

  /** The printed section, with pieces behind it, lexes and splits to its own pieces and
      those. */
  lemma PrintedPieces(c: Closure, more: seq<string>)
    requires Standard(c) && (c.fun == HeaderFields ==> PlainNames(c.headers)) && Follow(more)
    ensures Lex(Print(c) + Concat(more)).Some?
    ensures PiecesOfText(Print(c) + Concat(more)) == ["BODY"] + (["["] + HeadPieces(c) + TailPieces(c) + more)
  {
    hide Lex, Split, IsWord, HeadPieces, Print, HeadText, Standard, Pieces, Concat, Follow;
    if c.fun == HeaderFields {
      BracketWord(more);
      FieldTokens(c, Concat(more));
      FieldPieces(c, more);
    } else {
      PrintedWord(c, more);
      OneWord(Print(c) + Concat(more));
      assert TailPieces(c) == ["]"];
      assert ["BODY", "["] + HeadPieces(c) + (["]"] + more) == ["BODY"] + (["["] + HeadPieces(c) + ["]"] + more);
    }
  }

  lemma OneWord(w: string)
    requires IsWord(w)
    ensures Lex(w) == Some([w]) && Pieces([w], Some(DELIMS)) == Split(w, DELIMS)
  {
    assert w != [];
    hide Lex, IsWord;
    var item, none: seq<Spaced> := Spaced("", Word(w)), [];
    assert [item][1..] == none && Render(none) == [] && Render([item]) == "" + w + [];
    assert "" + w + [] == w;
    LexRender([item]);
    assert Tokens([item]) == [w];
    var rest: seq<string> := [];
    PiecesFirst(w, rest);
    assert [w] + rest == [w] && Pieces(rest, Some(DELIMS)) == [];
    assert Split(w, DELIMS) + [] == Split(w, DELIMS);
  }

  lemma BracketPieces(more: seq<string>)
    requires Follow(more)
    ensures Split("(", DELIMS) == ["("]
    ensures Pieces([")", "]" + Concat(more)], Some(DELIMS)) == [")", "]"] + more
  {
    hide Split, IsRun, Maximal, Concat, Follow, Pieces, IsWord;
    ParenRuns();
    WholeRun("(");
    WholeRun(")");
    BracketWord(more);
    LastPieces("]" + Concat(more), ["]"] + more);
    assert [")"] + (["]"] + more) == [")", "]"] + more;
  }

  lemma ParenRuns()
    ensures IsRun("(", DELIMS) && IsRun(")", DELIMS)
  {
  }

  lemma LastPieces(word: string, ps: seq<string>)
    requires word != [] && Split(word, DELIMS) == ps && Split(")", DELIMS) == [")"]
    ensures Pieces([")", word], Some(DELIMS)) == [")"] + ps
  {
    hide Split;
    var rest: seq<string> := [];
    PiecesFirst(word, rest);
    PiecesFirst(")", [word]);
    assert [word] + rest == [word] && [")"] + [word] == [")", word] && Pieces(rest, Some(DELIMS)) == [];
    assert ps + [] == ps;
  }

  /** Section 6.4.5 of RFC 3501: for any list of part numbers, any kind of section and
      any plain header names, the text that heads the response parses to the section
      it was printed from. */
  lemma SectionRoundTrip(c: Closure)
    requires Standard(c) && (c.fun == HeaderFields ==> PlainNames(c.headers))
    ensures var ps := PiecesOfText(Print(c));
            |ps| > 1 && ps[0] == "BODY" && ParseSection(ps[1..]) == Ok(Some((c, [])))
  {
    NothingFollows();
    PrintedPieces(c, []);
    ParsePieces(c, []);
    var ps := ["["] + HeadPieces(c) + TailPieces(c);
    assert Print(c) + [] == Print(c);
    assert ps + [] == ps && (["BODY"] + ps)[1..] == ps;
  }

  /** Of the sections the parser returns, only the dangling `BODY[n.]` is not read
      back: it is printed like the part itself. */
  lemma ReparsedExactly(c: Closure)
    requires Standard(c) || Dangling(c)
    requires c.fun == HeaderFields ==> PlainNames(c.headers)
    ensures var ps := PiecesOfText(Print(c));
            |ps| > 1 && (ParseSection(ps[1..]) == Ok(Some((c, []))) <==> Standard(c))
  {
    if Standard(c) {
      SectionRoundTrip(c);
    } else {
      var part := c.(fun := BodyN);
      assert Print(c) == Print(part);
      SectionRoundTrip(part);
    }
  }
}
