/** FETCH sections: what `BODY[...]` parses to, what the server prints back, and why
    the two agree.  The parser here works on the list of pieces. */
module Section {
  import opened Common
  import opened Lexer
  import opened ParseBuf

  datatype Result<+T> = Ok(value: T) | Err(text: string) {
    predicate IsFailure() { Err? }

    function PropagateFailure<U>(): Result<U>
      requires Err?
    {
      Err(text)
    }

    function Extract(): T
      requires Ok?
    {
      value
    }
  }

  /** The handlers a section can select. */
  datatype Handler = Body | BodyN | BodyText | Header | Mime | HeaderFields

  /** struct fetch_function_closure, as far as sections set it */
  datatype Closure = Closure(fun: Handler, tag: Option<string>, parts: seq<nat>,
                             negated: bool, headers: seq<string>)

  const DELIMS := ".[]<>"
  const HEADER_DELIMS := "()[]<>."

  // ---------- the parser, on the pieces from the current token on ----------

  /** imap4d_parsebuf_next (p, 1) */
  function Advance(ps: seq<string>): (r: Result<seq<string>>)
    requires ps != []
    ensures r.Ok? ==> r.value != [] && r.value == ps[1..]
  {
    if |ps| == 1 then Err("Too few arguments") else Ok(ps[1..])
  }

  function GetNumber(s: string): Result<nat> {
    var (n, end) := Strtoul(s);
    if end < |s| then Err("Syntax error: expected number") else Ok(n)
  }

  /** The loop of parse_section_part. */
  function ParseParts(ps: seq<string>): (r: Result<(seq<nat>, seq<string>)>)
    requires ps != []
    ensures r.Ok? ==> r.value.1 != [] && |r.value.1| < |ps| && r.value.0 != []
    decreases |ps|
  {
    var n :- GetNumber(ps[0]);
    var qs :- Advance(ps);
    if C0(qs[0]) == '.' && |qs| > 1 && IsDigit(C0(qs[1])) then
      var (more, rest) :- ParseParts(qs[1..]);
      Ok(([n] + more, rest))
    else Ok(([n], qs))
  }

  /** A delimiter alone, or nothing: strchr finds the terminator of its set. */
  predicate IsBareDelimiter(s: string) {
    s == [] || (|s| == 1 && s[0] in HEADER_DELIMS)
  }

  /** The loop of parse_header_list, from behind the opening parenthesis. */
  function ParseNames(ps: seq<string>): (r: Result<(seq<string>, seq<string>)>)
    requires ps != []
    ensures r.Ok? ==> r.value.1 != []
    decreases |ps|
  {
    if C0(ps[0]) == ')' then Ok(([], ps))
    else if IsBareDelimiter(ps[0]) then Err("Syntax error: unexpected delimiter")
    else
      var qs :- Advance(ps);
      var (more, rest) :- ParseNames(qs);
      Ok(([ps[0]] + more, rest))
  }

  function ParseHeaderList(ps: seq<string>): (r: Result<(seq<string>, seq<string>)>)
    requires ps != []
    ensures r.Ok? ==> r.value.1 != []
  {
    if C0(ps[0]) != '(' then Err("Syntax error: expected (")
    else
      var qs :- Advance(ps);
      var (names, end) :- ParseNames(qs);
      var rest :- Advance(end);
      Ok((names, rest))
  }

  /** The part of parse_section_text behind HEADER.FIELDS. */
  function ParseFields(ps: seq<string>, c: Closure): (r: Result<(Closure, seq<string>)>)
    requires ps != []
    ensures r.Ok? ==> r.value.1 != []
  {
    if C0(ps[0]) == '.' then
      var q3 :- Advance(ps);
      if !EqNoCase(q3[0], "NOT") then Err("Expected NOT")
      else
        var q4 :- Advance(q3);
        var (names, rest) :- ParseHeaderList(q4);
        Ok((c.(fun := HeaderFields, negated := true, headers := names), rest))
    else
      var (names, rest) :- ParseHeaderList(ps);
      Ok((c.(fun := HeaderFields, headers := names), rest))
  }

  /** The part of parse_section_text behind HEADER. */
  function ParseHeader(ps: seq<string>, c: Closure): (r: Result<(Closure, seq<string>)>)
    requires ps != []
    ensures r.Ok? ==> r.value.1 != []
  {
    if C0(ps[0]) != '.' then Ok((c.(fun := Header, tag := Some("HEADER")), ps))
    else
      var q1 :- Advance(ps);
      if !EqNoCase(q1[0], "FIELDS") then Err("Expected FIELDS")
      else
        var q2 :- Advance(q1);
        ParseFields(q2, c)
  }

  /** parse_section_text; None when the token starts no section text. */
  function ParseText(ps: seq<string>, c: Closure, mime: bool): (r: Result<Option<(Closure, seq<string>)>>)
    requires ps != []
    ensures r.Ok? && r.value.Some? ==> r.value.value.1 != []
  {
    if EqNoCase(ps[0], "HEADER") then
      var qs :- Advance(ps);
      var p :- ParseHeader(qs, c);
      Ok(Some(p))
    else if EqNoCase(ps[0], "TEXT") then
      var qs :- Advance(ps);
      Ok(Some((c.(fun := BodyText, tag := Some("TEXT")), qs)))
    else if mime && EqNoCase(ps[0], "MIME") then
      var qs :- Advance(ps);
      Ok(Some((c.(fun := Mime, tag := Some("MIME")), qs)))
    else Ok(None)
  }

  const INITIAL := Closure(BodyText, None, [], false, [])

  /** The part numbers and what may follow them. */
  function ParseNumbered(ps: seq<string>): (r: Result<(Closure, seq<string>)>)
    requires ps != []
    ensures r.Ok? ==> r.value.1 != []
  {
    var (parts, qs) :- ParseParts(ps);
    var c := INITIAL.(parts := parts);
    if C0(qs[0]) == '.' then
      var rs :- Advance(qs);
      var text :- ParseText(rs, c, true);
      Ok(if text.Some? then text.value else (c, rs))
    else Ok((c.(fun := BodyN), qs))
  }

  function ParseSpec(ps: seq<string>): (r: Result<(Closure, seq<string>)>)
    requires ps != []
    ensures r.Ok? ==> r.value.1 != []
  {
    var text :- ParseText(ps, INITIAL, false);
    if text.Some? then Ok(text.value)
    else if C0(ps[0]) == ']' then Ok((INITIAL.(fun := Body), ps))
    else if IsDigit(C0(ps[0])) then ParseNumbered(ps)
    else Err("Syntax error")
  }

  /** parse_section; None when the current token opens no section. */
  function ParseSection(ps: seq<string>): Result<Option<(Closure, seq<string>)>>
    requires ps != []
  {
    if C0(ps[0]) != '[' then Ok(None)
    else
      var qs :- Advance(ps);
      var (c, rest) :- ParseSpec(qs);
      if C0(rest[0]) != ']' then Err("Syntax error: missing ]")
      else Ok(Some((c, rest[1..])))
  }

  /** The next number and the delimiter behind it; what is left starts with that. */
  function ParseNumber(ps: seq<string>, delim: char, error: string): (r: Result<(nat, seq<string>)>)
    requires ps != []
    ensures r.Ok? ==> r.value.1 != []
  {
    var qs :- Advance(ps);
    var n :- GetNumber(qs[0]);
    var rest :- Advance(qs);
    if C0(rest[0]) != delim then Err(error) else Ok((n, rest))
  }

  /** parse_substring: `<start.size>`, or the whole text */
  function ParseSubstring(ps: seq<string>): Result<(nat, nat, seq<string>)> {
    if ps == [] || C0(ps[0]) != '<' then Ok((0, WHOLE, ps))
    else
      var (start, dot) :- ParseNumber(ps, '.', "Syntax error: expected .");
      var (size, end) :- ParseNumber(dot, '>', "Syntax error: expected >");
      Ok((start, size, end[1..]))
  }

  /** What a FETCH asks for of a body, and the pieces left over. */
  datatype Request = Request(section: Closure, start: nat, size: nat, rest: seq<string>)

  /** parse_body_args; None when the current token opens no section. */
  function ParseBodyArgs(ps: seq<string>): Result<Option<Request>>
    requires ps != []
  {
    var section :- ParseSection(ps);
    if section.None? then Ok(None)
    else
      var (start, size, rest) :- ParseSubstring(section.value.1);
      Ok(Some(Request(section.value.0, start, size, rest)))
  }

  // ---------- the printer ----------

  function PrintParts(parts: seq<nat>): string {
    if parts == [] then []
    else if |parts| == 1 then Dec(parts[0])
    else Dec(parts[0]) + "." + PrintParts(parts[1..])
  }

  /** fetch_send_section_part */
  function SendSectionPart(parts: seq<nat>, suffix: Option<string>, close: bool): string {
    "BODY[" + PrintParts(parts)
    + (if suffix.Some? then (if parts != [] then "." else "") + suffix.value else "")
    + (if close then "]" else "")
  }

  /** The section as it heads the response: what the handlers send before the data. */
  function Print(c: Closure): string {
    match c.fun
    case Body => SendSectionPart(c.parts, None, true)
    case HeaderFields =>
      SendSectionPart(c.parts, Some("HEADER.FIELDS"), false)
      + (if c.negated then ".NOT" else "") + " (" + Join(c.headers) + ")]"
    case _ => SendSectionPart(c.parts, c.tag, true)
  }

  // ---------- what the parser returns ----------

  /** The sections of section 6.4.5 of RFC 3501. */
  predicate Standard(c: Closure) {
    && (forall i :: 0 <= i < |c.parts| ==> c.parts[i] <= ULONG_MAX)
    && match c.fun
       case Body => c == INITIAL.(fun := Body)
       case BodyN => c == INITIAL.(fun := BodyN, parts := c.parts) && c.parts != []
       case BodyText => c == INITIAL.(tag := Some("TEXT"), parts := c.parts)
       case Header => c == INITIAL.(fun := Header, tag := Some("HEADER"), parts := c.parts)
       case Mime => c == INITIAL.(fun := Mime, tag := Some("MIME"), parts := c.parts) && c.parts != []
       case HeaderFields => c.tag == None
  }

  /** `BODY[1.]`: a dot with nothing behind it is taken for TEXT without its tag. */
  predicate Dangling(c: Closure) {
    && (forall i :: 0 <= i < |c.parts| ==> c.parts[i] <= ULONG_MAX)
    && c == INITIAL.(parts := c.parts) && c.parts != []
  }

  lemma {:induction false} PartsBounded(ps: seq<string>)
    requires ps != [] && ParseParts(ps).Ok?
    ensures forall i :: 0 <= i < |ParseParts(ps).value.0| ==> ParseParts(ps).value.0[i] <= ULONG_MAX
    decreases |ps|
  {
    var qs := ps[1..];
    if C0(qs[0]) == '.' && |qs| > 1 && IsDigit(C0(qs[1])) {
      PartsBounded(qs[1..]);
    }
  }

  lemma FieldsShape(ps: seq<string>, c: Closure)
    requires ps != [] && ParseFields(ps, c).Ok?
    ensures var d := ParseFields(ps, c).value.0;
            d.fun == HeaderFields && d.tag == c.tag && d.parts == c.parts
  {
    hide EqNoCase, ParseHeaderList;
  }

  lemma HeaderShape(ps: seq<string>, c: Closure)
    requires ps != [] && ParseHeader(ps, c).Ok?
    ensures var d := ParseHeader(ps, c).value.0;
            d == c.(fun := Header, tag := Some("HEADER"))
              || (d.fun == HeaderFields && d.tag == c.tag && d.parts == c.parts)
  {
    hide EqNoCase, ParseFields;
    if C0(ps[0]) == '.' {
      FieldsShape(ps[1..][1..], c);
    }
  }

  /** Whatever parses is a standard section or the dangling form. */
  lemma ParsedShape(ps: seq<string>)
    requires ps != []
    requires ParseSection(ps).Ok? && ParseSection(ps).value.Some?
    ensures var c := ParseSection(ps).value.value.0; Standard(c) || Dangling(c)
  {
    hide EqNoCase, ParseParts, ParseHeader;
    var qs := ps[1..];
    if ParseText(qs, INITIAL, false).value.None? {
      if C0(qs[0]) != ']' {
        PartsBounded(qs);
        var (parts, ts) := ParseParts(qs).value;
        TextShape(ts[1..], INITIAL.(parts := parts), true);
      }
    } else {
      TextShape(qs, INITIAL, false);
    }
  }

  lemma TextShape(ps: seq<string>, c: Closure, mime: bool)
    ensures ps != [] && EqNoCase(ps[0], "HEADER") && Advance(ps).Ok? && ParseHeader(ps[1..], c).Ok? ==>
              var d := ParseHeader(ps[1..], c).value.0;
              d == c.(fun := Header, tag := Some("HEADER"))
                || (d.fun == HeaderFields && d.tag == c.tag && d.parts == c.parts)
  {
    hide EqNoCase, ParseHeader;
    if ps != [] && Advance(ps).Ok? && ParseHeader(ps[1..], c).Ok? {
      HeaderShape(ps[1..], c);
    }
  }
}
