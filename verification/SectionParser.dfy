/** The section parser of FETCH over the parse buffer, filling a closure in place. */
module SectionParser {
  import opened Common
  import opened ParseBuf
  import opened Section

  /** struct fetch_function_closure, with its growing array of part numbers */
  class FetchClosure {
    var fun: Handler
    var tag: Option<string>
    var sectionPart: array<nat>
    var nset: nat
    var negated: bool
    var headers: seq<string>
    var start: nat
    var size: nat

    ghost function View(): Closure
      requires nset <= sectionPart.Length
      reads this, sectionPart
    {
      Closure(fun, tag, sectionPart[..nset], negated, headers)
    }

    /** ffc_init, and the default handler of parse_section */
    constructor ()
      ensures fresh(sectionPart) && nset <= sectionPart.Length && View() == INITIAL
      ensures start == 0 && size == WHOLE
    {
      fun, tag, nset, negated, headers := BodyText, None, 0, false, [];
      start, size := 0, WHOLE;
      sectionPart := new nat[0];
    }
  }

  /** The pieces from the current token on. */
  ghost function Stream(p: ParseBuf): seq<string>
    requires Stands(p.Src(), p.Where())
    reads p, p.tok
  {
    if p.Current().None? then [] else [p.Current().value] + p.Upcoming()
  }

  /** imap4d_parsebuf_next (p, 1); a failure leaves through the error exit */
  method Require(p: ParseBuf) returns (r: Result<()>)
    requires p.Valid() && Stream(p) != []
    modifies p, p.tok.buffer
    ensures p.Valid()
    ensures r.Err? ==> Section.Advance(old(Stream(p))) == Err(r.text)
    ensures r.Ok? ==> Section.Advance(old(Stream(p))) == Ok(Stream(p))
  {
    hide Stands, GoodSource, OneHole, Left, CurrentPiece;
    ghost var before := p.Upcoming();
    assert Stream(p)[1..] == before;
    var t := p.Next(true);
    assert t.Token? ==> [before[0]] + before[1..] == before;
    r := if t.Token? then Ok(()) else Err("Too few arguments");
  }

  /** imap4d_parsebuf_next (p, 0) */
  method Skip(p: ParseBuf)
    requires p.Valid() && Stream(p) != []
    modifies p, p.tok.buffer
    ensures p.Valid() && Stream(p) == old(Stream(p))[1..]
  {
    hide Stands, GoodSource, OneHole, Left, CurrentPiece;
    ghost var before := p.Upcoming();
    assert Stream(p)[1..] == before;
    var t := p.Next(false);
    assert t.Token? ==> [before[0]] + before[1..] == before;
  }

  /** The current token's text. */
  method Text(p: ParseBuf) returns (s: string)
    requires p.Valid() && Stream(p) != []
    ensures s == Stream(p)[0]
  {
    s := p.TokenText();
  }

  /** The test that ends the loop of parse_section_part. */
  method DotDigit(p: ParseBuf) returns (b: bool)
    requires p.Valid() && Stream(p) != []
    modifies p`peekPtr
    ensures p.Valid() && Stream(p) == old(Stream(p))
    ensures b <==> C0(Stream(p)[0]) == '.' && |Stream(p)| > 1 && IsDigit(C0(Stream(p)[1]))
  {
    hide Stands, GoodSource, OneHole, Left, CurrentPiece;
    var t := Text(p);
    b := false;
    if C0(t) == '.' {
      var cp := p.Peek();
      b := cp.Some? && IsDigit(C0(cp.value));
    }
  }

  /** The result of the parts still to come, behind those already stored. */
  ghost function Behind(done: seq<nat>, r: Result<(seq<nat>, seq<string>)>): Result<(seq<nat>, seq<string>)> {
    match r
    case Err(e) => Err(e)
    case Ok((more, rest)) => Ok((done + more, rest))
  }

  /** One turn of the loop over the part numbers. */
  lemma PartsTurn(ps: seq<string>)
    requires ps != []
    ensures GetNumber(ps[0]).Err? ==> ParseParts(ps) == Err(GetNumber(ps[0]).text)
    ensures GetNumber(ps[0]).Ok? && Section.Advance(ps).Err? ==> ParseParts(ps) == Err(Section.Advance(ps).text)
    ensures GetNumber(ps[0]).Ok? && Section.Advance(ps).Ok? ==>
              var n := GetNumber(ps[0]).value; var qs := Section.Advance(ps).value;
              ParseParts(ps) == if C0(qs[0]) == '.' && |qs| > 1 && IsDigit(C0(qs[1]))
                                then Behind([n], ParseParts(qs[1..])) else Ok(([n], qs))
  {
    hide GetNumber;
  }

  /** Stores `n` at `ncur`, doubling the array when it is full. */
  method Store(parts: array<nat>, ncur: nat, n: nat) returns (grown: array<nat>)
    requires ncur <= parts.Length
    modifies parts
    ensures grown == parts || fresh(grown)
    ensures ncur < grown.Length && grown[..ncur + 1] == old(parts[..ncur]) + [n]
  {
    grown := parts;
    if ncur == parts.Length {
      var nmax := if parts.Length == 0 then 16 else 2 * parts.Length;
      grown := new nat[nmax];
      forall i | 0 <= i < ncur {
        grown[i] := parts[i];
      }
    }
    grown[ncur] := n;
  }

  /** One turn of the loop: whether another part number follows. */
  method TakePart(p: ParseBuf, parts: array<nat>, ncur: nat) returns (grown: array<nat>, r: Result<bool>)
    requires p.Valid() && Stream(p) != [] && ncur <= parts.Length
    modifies p, p.tok.buffer, parts
    ensures p.Valid() && (grown == parts || fresh(grown))
    ensures r.Err? ==> ParseParts(old(Stream(p))) == Err(r.text)
    ensures r.Ok? ==> Stream(p) != [] && ncur < grown.Length && grown[..ncur] == old(parts[..ncur])
    ensures r == Ok(true) ==> |Stream(p)| < |old(Stream(p))|
                              && ParseParts(old(Stream(p))) == Behind([grown[ncur]], ParseParts(Stream(p)))
    ensures r == Ok(false) ==> ParseParts(old(Stream(p))) == Ok(([grown[ncur]], Stream(p)))
  {
    hide Stands, GoodSource, OneHole, Left, CurrentPiece, GetNumber, ParseParts, Behind;
    grown := parts;
    PartsTurn(Stream(p));
    var token := Text(p);
    var number := GetNumber(token);
    if number.Err? {
      return grown, Err(number.text);
    }
    ghost var done := parts[..ncur];
    grown := Store(parts, ncur, number.value);
    assert grown[..ncur + 1][..ncur] == done && grown[..ncur + 1][ncur] == number.value;
    var step := Require(p);
    if step.Err? {
      return grown, Err(step.text);
    }
    var more := DotDigit(p);
    if more {
      step := Require(p);
      assert step.Ok?;
    }
    r := Ok(more);
  }

  /** parse_section_part */
  method ParseSectionPart(p: ParseBuf, ffc: FetchClosure) returns (r: Result<()>)
    requires p.Valid() && Stream(p) != []
    modifies p, p.tok.buffer, ffc`fun, ffc`tag, ffc`sectionPart, ffc`nset, ffc`negated, ffc`headers
    ensures p.Valid() && ffc.nset <= ffc.sectionPart.Length
    ensures r.Err? ==> ParseParts(old(Stream(p))) == Err(r.text)
    ensures r.Ok? ==> ParseParts(old(Stream(p))) == Ok((ffc.sectionPart[..ffc.nset], Stream(p)))
    ensures r.Ok? ==> ffc.fun == old(ffc.fun) && ffc.tag == old(ffc.tag) && ffc.negated == old(ffc.negated)
                      && ffc.headers == old(ffc.headers) && fresh(ffc.sectionPart)
  {
    hide Stands, GoodSource, OneHole, Left, CurrentPiece, ParseParts;
    ffc.nset := 0;
    ghost var ps := Stream(p);
    var parts := new nat[0];
    var ncur: nat := 0;
    assert Behind(parts[..ncur], ParseParts(ps)) == ParseParts(ps) by { BehindNone(ParseParts(ps)); }
    while true
      invariant p.Valid() && Stream(p) != []
      invariant fresh(parts) && ncur <= parts.Length
      invariant ParseParts(ps) == Behind(parts[..ncur], ParseParts(Stream(p)))
      invariant ffc.nset == 0 && ffc.fun == old(ffc.fun) && ffc.tag == old(ffc.tag)
      invariant ffc.negated == old(ffc.negated) && ffc.headers == old(ffc.headers)
      decreases |Stream(p)|
    {
      ghost var done := parts[..ncur];
      var turn;
      parts, turn := TakePart(p, parts, ncur);
      var more :- turn;
      ghost var n := parts[ncur];
      assert parts[..ncur + 1] == done + [n];
      ncur := ncur + 1;
      if !more {
        break;
      }
      BehindTwice(done, [n], ParseParts(Stream(p)));
    }
    ffc.sectionPart, ffc.nset := parts, ncur;
    r := Ok(());
  }

  lemma BehindNone(r: Result<(seq<nat>, seq<string>)>)
    ensures Behind([], r) == r
  {
    assert r.Ok? ==> [] + r.value.0 == r.value.0;
  }

  lemma BehindTwice(a: seq<nat>, b: seq<nat>, r: Result<(seq<nat>, seq<string>)>)
    ensures Behind(a, Behind(b, r)) == Behind(a + b, r)
  {
    if r.Ok? {
      assert a + (b + r.value.0) == a + b + r.value.0;
    }
  }

  /** The closure keeps all but what the header list sets. */
  twostate predicate OnlyHeaders(ffc: FetchClosure)
    reads ffc
  {
    && ffc.fun == old(ffc.fun) && ffc.tag == old(ffc.tag) && ffc.negated == old(ffc.negated)
    && ffc.sectionPart == old(ffc.sectionPart) && ffc.nset == old(ffc.nset)
  }

  ghost function BehindNames(done: seq<string>, r: Result<(seq<string>, seq<string>)>)
    : Result<(seq<string>, seq<string>)> {
    match r
    case Err(e) => Err(e)
    case Ok((more, rest)) => Ok((done + more, rest))
  }

  lemma BehindNamesOne(done: seq<string>, x: string, r: Result<(seq<string>, seq<string>)>)
    ensures BehindNames(done, BehindNames([x], r)) == BehindNames(done + [x], r)
    ensures BehindNames([], r) == r
  {
    if r.Ok? {
      assert done + ([x] + r.value.0) == done + [x] + r.value.0;
      assert [] + r.value.0 == r.value.0;
    }
  }

  /** One turn of the loop over the header names. */
  lemma NamesTurn(ps: seq<string>)
    requires ps != []
    ensures C0(ps[0]) == ')' ==> ParseNames(ps) == Ok(([], ps))
    ensures C0(ps[0]) != ')' && IsBareDelimiter(ps[0]) ==>
              ParseNames(ps) == Err("Syntax error: unexpected delimiter")
    ensures C0(ps[0]) != ')' && !IsBareDelimiter(ps[0]) ==>
              ParseNames(ps) == match Section.Advance(ps)
                                case Err(e) => Err(e)
                                case Ok(qs) => BehindNames([ps[0]], ParseNames(qs))
  {
  }

  /** parse_header_list */
  method ParseHeaders(p: ParseBuf, ffc: FetchClosure) returns (r: Result<()>)
    requires p.Valid() && Stream(p) != []
    modifies p, p.tok.buffer, ffc`fun, ffc`tag, ffc`sectionPart, ffc`nset, ffc`negated, ffc`headers
    ensures p.Valid() && OnlyHeaders(ffc)
    ensures r.Err? ==> ParseHeaderList(old(Stream(p))) == Err(r.text)
    ensures r.Ok? ==> ParseHeaderList(old(Stream(p))) == Ok((ffc.headers, Stream(p)))
  {
    hide Stands, GoodSource, OneHole, Left, CurrentPiece, ParseNames;
    var token := Text(p);
    if C0(token) != '(' {
      return Err("Syntax error: expected (");
    }
    ffc.headers := [];
    var _ :- Require(p);
    ghost var ps := Stream(p);
    BehindNamesOne([], "", ParseNames(ps));
    while true
      invariant p.Valid() && Stream(p) != [] && OnlyHeaders(ffc)
      invariant ParseNames(ps) == BehindNames(ffc.headers, ParseNames(Stream(p)))
      decreases |Stream(p)|
    {
      token := Text(p);
      NamesTurn(Stream(p));
      if C0(token) == ')' {
        break;
      }
      if token == [] || (|token| == 1 && token[0] in HEADER_DELIMS) {
        return Err("Syntax error: unexpected delimiter");
      }
      ghost var done := ffc.headers;
      ffc.headers := ffc.headers + [token];
      var _ :- Require(p);
      BehindNamesOne(done, token, ParseNames(Stream(p)));
    }
    assert ffc.headers + [] == ffc.headers;
    r := Require(p);
  }

  /** What a call of the section parser may leave behind: the closure as the function
      on pieces describes it, or the same error. */
  ghost predicate Parsed(expected: Result<(Closure, seq<string>)>, r: Result<()>, c: Closure, rest: seq<string>) {
    match r
    case Err(e) => expected == Err(e)
    case Ok(_) => expected == Ok((c, rest))
  }

  /** The part of parse_section_text behind HEADER.FIELDS. */
  method ParseFieldsText(p: ParseBuf, ffc: FetchClosure) returns (r: Result<()>)
    requires p.Valid() && Stream(p) != [] && ffc.nset <= ffc.sectionPart.Length
    modifies p, p.tok.buffer, ffc`fun, ffc`tag, ffc`sectionPart, ffc`nset, ffc`negated, ffc`headers
    ensures p.Valid() && ffc.nset <= ffc.sectionPart.Length && ffc.sectionPart == old(ffc.sectionPart)
    ensures Parsed(ParseFields(old(Stream(p)), old(ffc.View())), r, ffc.View(), Stream(p))
  {
    hide Stands, GoodSource, OneHole, Left, CurrentPiece, ParseHeaderList, EqNoCase;
    ffc.fun := HeaderFields;
    var token := Text(p);
    if C0(token) == '.' {
      var _ :- Require(p);
      token := Text(p);
      if !EqNoCase(token, "NOT") {
        return Err("Expected NOT");
      }
      ffc.negated := true;
      var _ :- Require(p);
    }
    r := ParseHeaders(p, ffc);
  }

  /** The part of parse_section_text behind HEADER. */
  method ParseHeaderText(p: ParseBuf, ffc: FetchClosure) returns (r: Result<()>)
    requires p.Valid() && Stream(p) != [] && ffc.nset <= ffc.sectionPart.Length
    modifies p, p.tok.buffer, ffc`fun, ffc`tag, ffc`sectionPart, ffc`nset, ffc`negated, ffc`headers
    ensures p.Valid() && ffc.nset <= ffc.sectionPart.Length && ffc.sectionPart == old(ffc.sectionPart)
    ensures Parsed(ParseHeader(old(Stream(p)), old(ffc.View())), r, ffc.View(), Stream(p))
  {
    hide Stands, GoodSource, OneHole, Left, CurrentPiece, ParseFields, EqNoCase;
    var token := Text(p);
    if C0(token) == '.' {
      var _ :- Require(p);
      token := Text(p);
      if !EqNoCase(token, "FIELDS") {
        return Err("Expected FIELDS");
      }
      var _ :- Require(p);
      r := ParseFieldsText(p, ffc);
    } else {
      ffc.fun := Header;
      ffc.tag := Some("HEADER");
      r := Ok(());
    }
  }

  /** parse_section_text: false when the token starts no section text */
  method ParseSectionText(p: ParseBuf, ffc: FetchClosure, mime: bool) returns (r: Result<bool>)
    requires p.Valid() && Stream(p) != [] && ffc.nset <= ffc.sectionPart.Length
    modifies p, p.tok.buffer, ffc`fun, ffc`tag, ffc`sectionPart, ffc`nset, ffc`negated, ffc`headers
    ensures p.Valid() && ffc.nset <= ffc.sectionPart.Length && ffc.sectionPart == old(ffc.sectionPart)
    ensures r.Err? ==> ParseText(old(Stream(p)), old(ffc.View()), mime) == Err(r.text)
    ensures r == Ok(true) ==> ParseText(old(Stream(p)), old(ffc.View()), mime) == Ok(Some((ffc.View(), Stream(p))))
    ensures r == Ok(false) ==> ParseText(old(Stream(p)), old(ffc.View()), mime) == Ok(None)
    ensures r == Ok(false) ==> ffc.View() == old(ffc.View()) && Stream(p) == old(Stream(p))
  {
    hide Stands, GoodSource, OneHole, Left, CurrentPiece, ParseHeader, EqNoCase;
    var token := Text(p);
    if EqNoCase(token, "HEADER") {
      var _ :- Require(p);
      var _ :- ParseHeaderText(p, ffc);
    } else if EqNoCase(token, "TEXT") {
      var _ :- Require(p);
      ffc.fun, ffc.tag := BodyText, Some("TEXT");
    } else if mime && EqNoCase(token, "MIME") {
      var _ :- Require(p);
      ffc.fun, ffc.tag := Mime, Some("MIME");
    } else {
      return Ok(false);
    }
    r := Ok(true);
  }

  /** The branch of parse_section for a numbered section. */
  method ParseNumberedSection(p: ParseBuf, ffc: FetchClosure) returns (r: Result<()>)
    requires p.Valid() && Stream(p) != []
    requires ffc.nset <= ffc.sectionPart.Length && ffc.View() == INITIAL
    modifies p, p.tok.buffer, ffc`fun, ffc`tag, ffc`sectionPart, ffc`nset, ffc`negated, ffc`headers
    ensures p.Valid() && ffc.nset <= ffc.sectionPart.Length
    ensures Parsed(ParseNumbered(old(Stream(p))), r, ffc.View(), Stream(p))
  {
    hide Stands, GoodSource, OneHole, Left, CurrentPiece, ParseParts, ParseText;
    var _ :- ParseSectionPart(p, ffc);
    assert ffc.View() == INITIAL.(parts := ffc.sectionPart[..ffc.nset]);
    var token := Text(p);
    if C0(token) == '.' {
      var _ :- Require(p);
      var _ :- ParseSectionText(p, ffc, true);
    } else {
      ffc.fun := BodyN;
    }
    r := Ok(());
  }

  /** The part of parse_section between the brackets. */
  method ParseSectionSpec(p: ParseBuf, ffc: FetchClosure) returns (r: Result<()>)
    requires p.Valid() && Stream(p) != []
    requires ffc.nset <= ffc.sectionPart.Length && ffc.View() == INITIAL
    modifies p, p.tok.buffer, ffc`fun, ffc`tag, ffc`sectionPart, ffc`nset, ffc`negated, ffc`headers
    ensures p.Valid() && ffc.nset <= ffc.sectionPart.Length
    ensures Parsed(ParseSpec(old(Stream(p))), r, ffc.View(), Stream(p))
  {
    hide Stands, GoodSource, OneHole, Left, CurrentPiece, ParseNumbered, ParseText;
    var found :- ParseSectionText(p, ffc, false);
    if !found {
      var token := Text(p);
      if C0(token) == ']' {
        ffc.fun := Body;
      } else if IsDigit(C0(token)) {
        var _ :- ParseNumberedSection(p, ffc);
      } else {
        return Err("Syntax error");
      }
    }
    r := Ok(());
  }

  /** parse_section, on a fresh closure: false when the token opens no section */
  method ParseSectionInto(p: ParseBuf, ffc: FetchClosure) returns (r: Result<bool>)
    requires p.Valid() && Stream(p) != []
    requires ffc.nset <= ffc.sectionPart.Length && ffc.View() == INITIAL
    modifies p, p.tok.buffer, ffc`fun, ffc`tag, ffc`sectionPart, ffc`nset, ffc`negated, ffc`headers
    ensures p.Valid() && ffc.nset <= ffc.sectionPart.Length
    ensures r.Err? ==> ParseSection(old(Stream(p))) == Err(r.text)
    ensures r == Ok(true) ==> ParseSection(old(Stream(p))) == Ok(Some((ffc.View(), Stream(p))))
    ensures r == Ok(false) ==> ParseSection(old(Stream(p))) == Ok(None) && Stream(p) == old(Stream(p))
  {
    hide Stands, GoodSource, OneHole, Left, CurrentPiece, ParseSpec;
    var token := Text(p);
    if C0(token) != '[' {
      return Ok(false);
    }
    var _ :- Require(p);
    var _ :- ParseSectionSpec(p, ffc);
    token := Text(p);
    if C0(token) != ']' {
      return Err("Syntax error: missing ]");
    }
    Skip(p);
    r := Ok(true);
  }

  lemma NoCurrent(src: Source, c: Cursor)
    ensures CurrentPiece(src, c).None? <==> c.tokptr.None?
  {
  }

  /** The next number, and the test of the delimiter behind it. */
  method ParseNumberBefore(p: ParseBuf, delim: char, error: string) returns (r: Result<nat>)
    requires p.Valid() && Stream(p) != []
    modifies p, p.tok.buffer
    ensures p.Valid()
    ensures r.Err? ==> ParseNumber(old(Stream(p)), delim, error) == Err(r.text)
    ensures r.Ok? ==> Stream(p) != [] && ParseNumber(old(Stream(p)), delim, error) == Ok((r.value, Stream(p)))
  {
    hide Stands, GoodSource, OneHole, Left, CurrentPiece, GetNumber;
    var _ :- Require(p);
    var token := Text(p);
    var n :- GetNumber(token);
    var _ :- Require(p);
    token := Text(p);
    r := if C0(token) != delim then Err(error) else Ok(n);
  }

  /** parse_substring, on a closure that asks for the whole text */
  method ParseSubstringInto(p: ParseBuf, ffc: FetchClosure) returns (r: Result<()>)
    requires p.Valid() && ffc.start == 0 && ffc.size == WHOLE
    modifies p, p.tok.buffer, ffc`start, ffc`size
    ensures p.Valid()
    ensures r.Err? ==> ParseSubstring(old(Stream(p))) == Err(r.text)
    ensures r.Ok? ==> ParseSubstring(old(Stream(p))) == Ok((ffc.start, ffc.size, Stream(p)))
  {
    hide Stands, GoodSource, OneHole, Left, CurrentPiece, ParseNumber;
    NoCurrent(p.Src(), p.Where());
    if p.tokptr.None? {
      return Ok(());
    }
    var token := Text(p);
    if C0(token) != '<' {
      return Ok(());
    }
    var start :- ParseNumberBefore(p, '.', "Syntax error: expected .");
    ffc.start := start;
    var size :- ParseNumberBefore(p, '>', "Syntax error: expected >");
    ffc.size := size;
    Skip(p);
    r := Ok(());
  }

  /** parse_body_args, on a fresh closure: false when the token opens no section */
  method ParseBodyArgsInto(p: ParseBuf, ffc: FetchClosure) returns (r: Result<bool>)
    requires p.Valid() && Stream(p) != []
    requires ffc.nset <= ffc.sectionPart.Length && ffc.View() == INITIAL && ffc.start == 0 && ffc.size == WHOLE
    modifies p, p.tok.buffer, ffc
    ensures p.Valid() && ffc.nset <= ffc.sectionPart.Length
    ensures r.Err? ==> ParseBodyArgs(old(Stream(p))) == Err(r.text)
    ensures r == Ok(true) ==>
              ParseBodyArgs(old(Stream(p))) == Ok(Some(Request(ffc.View(), ffc.start, ffc.size, Stream(p))))
    ensures r == Ok(false) ==> ParseBodyArgs(old(Stream(p))) == Ok(None)
  {
    hide Stands, GoodSource, OneHole, Left, CurrentPiece, ParseSection, ParseSubstring;
    var found :- ParseSectionInto(p, ffc);
    if !found {
      return Ok(false);
    }
    ghost var section := ffc.View();
    var _ :- ParseSubstringInto(p, ffc);
    assert ffc.View() == section;
    r := Ok(true);
  }
}
