/** BODY[HEADER.FIELDS ...]: which header lines are sent, and the byte count that is
    kept while they are collected. */
module HeaderFields {
  import opened Common
  import opened FetchIo

  datatype Field = Field(name: string, value: string)

  /** The first requested name that is the field's, in the request's spelling. */
  function Locate(headers: seq<string>, name: string): (r: Option<string>)
    ensures r.Some? <==> exists i :: 0 <= i < |headers| && EqNoCase(headers[i], name)
    ensures r.Some? ==> r.value in headers && EqNoCase(r.value, name)
  {
    if headers == [] then None
    else if EqNoCase(headers[0], name) then Some(headers[0])
    else Locate(headers[1..], name)
  }

  /** The name a field is sent under, if it is sent. */
  function Item(headers: seq<string>, not_: bool, f: Field): Option<string> {
    var located := Locate(headers, f.name);
    if not_ then (if located.Some? then None else Some(f.name)) else located
  }

  function Line(item: string, value: string): string {
    item + ": " + value + [LF]
  }

  function Collected(headers: seq<string>, not_: bool, fields: seq<Field>): string {
    if fields == [] then []
    else
      var item := Item(headers, not_, fields[0]);
      (if item.Some? then Line(item.value, fields[0].value) else []) + Collected(headers, not_, fields[1..])
  }

  /** The collected lines and the empty line behind them. */
  function HeaderText(headers: seq<string>, not_: bool, fields: seq<Field>): string {
    Collected(headers, not_, fields) + [LF]
  }

  /** Newlines in the names sent, which the line count of the source leaves out. */
  function NameLines(headers: seq<string>, not_: bool, fields: seq<Field>): nat {
    if fields == [] then 0
    else
      var item := Item(headers, not_, fields[0]);
      (if item.Some? then Lines(item.value) else 0) + NameLines(headers, not_, fields[1..])
  }

  lemma LineLines(item: string, value: string)
    ensures Lines(Line(item, value)) == Lines(item) + Lines(value) + 1
  {
    hide Lines;
    CrlfAppend(item + ": " + value, [LF]);
    CrlfAppend(item + ": ", value);
    CrlfAppend(item, ": ");
    Separators();
  }

  lemma Separators()
    ensures Lines(": ") == 0 && Lines([LF]) == 1
  {
    assert ": "[1..] == " " && " "[1..] == "" && [LF][1..] == "";
  }

  lemma CollectedCons(headers: seq<string>, not_: bool, f: Field, more: seq<Field>)
    ensures var item := Item(headers, not_, f);
            && Collected(headers, not_, [f] + more)
               == (if item.Some? then Line(item.value, f.value) else []) + Collected(headers, not_, more)
            && NameLines(headers, not_, [f] + more)
               == (if item.Some? then Lines(item.value) else 0) + NameLines(headers, not_, more)
  {
    hide Item, Line, Lines;
    assert ([f] + more)[1..] == more;
  }

  lemma {:induction false} CollectedAppend(headers: seq<string>, not_: bool, fields: seq<Field>, f: Field)
    ensures var item := Item(headers, not_, f);
            && Collected(headers, not_, fields + [f])
               == Collected(headers, not_, fields) + (if item.Some? then Line(item.value, f.value) else [])
            && NameLines(headers, not_, fields + [f])
               == NameLines(headers, not_, fields) + (if item.Some? then Lines(item.value) else 0)
  {
    hide Item, Line, Lines, Collected, NameLines;
    CollectedCons(headers, not_, f, []);
    NoFields(headers, not_);
    if fields == [] {
      assert fields + [f] == [f] + [];
    } else {
      CollectedAppend(headers, not_, fields[1..], f);
      CollectedCons(headers, not_, fields[0], fields[1..]);
      CollectedCons(headers, not_, fields[0], fields[1..] + [f]);
      assert fields + [f] == [fields[0]] + (fields[1..] + [f]) && fields == [fields[0]] + fields[1..];
    }
  }

  /** The loop of _frt_header_fields: the text collected in the memory stream and the
      line count kept beside it. */
  method Collect(headers: seq<string>, not_: bool, fields: seq<Field>) returns (stream: string, lines: nat)
    ensures stream == HeaderText(headers, not_, fields)
    ensures Lines(stream) == lines + NameLines(headers, not_, fields)
  {
    hide Collected, NameLines, Item, Lines, Line;
    stream, lines := [], 0;
    NoFields(headers, not_);
    for i := 0 to |fields|
      invariant stream == Collected(headers, not_, fields[..i])
      invariant Lines(stream) == lines + NameLines(headers, not_, fields[..i])
    {
      var f := fields[i];
      CollectedAppend(headers, not_, fields[..i], f);
      assert fields[..i] + [f] == fields[..i + 1];
      var item := Item(headers, not_, f);
      if item.Some? {
        LineLines(item.value, f.value);
        CrlfAppend(stream, Line(item.value, f.value));
        stream := stream + Line(item.value, f.value);
        var newlines := CountNl(f.value);
        lines := lines + 1 + newlines;
      }
    }
    assert fields[..|fields|] == fields;
    Separators();
    CrlfAppend(stream, [LF]);
    stream := stream + [LF];
    lines := lines + 1;
  }

  lemma NoFields(headers: seq<string>, not_: bool)
    ensures Collected(headers, not_, []) == [] && NameLines(headers, not_, []) == 0 && Lines([]) == 0
  {
  }

  /** _frt_header_fields from the collecting loop on */
  method SendHeaderFields(headers: seq<string>, not_: bool, fields: seq<Field>, start: nat, size: nat,
                          failures: nat, out: Connection)
    returns (ok: bool)
    requires Fits(HeaderText(headers, not_, fields)) && NameLines(headers, not_, fields) == 0
    requires start <= WHOLE && size <= WHOLE && out.crlf
    modifies out
    ensures out.crlf
    ensures !ok ==> out.sent == old(out.sent)
    ensures var text := HeaderText(headers, not_, fields);
            && (ok && !(start == 0 && size == WHOLE) ==> out.sent == old(out.sent) + Response(text, start, size))
            && (ok && start == 0 && size == WHOLE ==> exists k :: SentWhole(text, k, old(out.sent), out.sent))
            && (failures == 0 && |Crlf(text)| + 2 < SIZE_LIMIT ==>
                  ok && out.sent == old(out.sent) + Response(text, start, size))
  {
    hide HeaderText, Crlf, Lines, Response, NameLines, SentWhole;
    var text, lines := Collect(headers, not_, fields);
    CrlfLength(text);
    var stream := new Source(text, failures);
    ok := FetchIo.FetchIo(stream, start, size, |text| + lines, out);
  }

  /** The announced length of HEADER.FIELDS is right if and only if no name sent holds
      a newline. */
  lemma FieldsLength(headers: seq<string>, not_: bool, fields: seq<Field>, lines: nat)
    requires var text := HeaderText(headers, not_, fields); Lines(text) == lines + NameLines(headers, not_, fields)
    ensures var text := HeaderText(headers, not_, fields);
            |Crlf(text)| == |text| + lines <==> NameLines(headers, not_, fields) == 0
  {
    hide Crlf, Lines, HeaderText, NameLines;
    CrlfLength(HeaderText(headers, not_, fields));
  }

  function Sent(headers: seq<string>, not_: bool, fields: seq<Field>): seq<Field> {
    if fields == [] then []
    else (if Item(headers, not_, fields[0]).Some? then [fields[0]] else []) + Sent(headers, not_, fields[1..])
  }

  /** HEADER.FIELDS and HEADER.FIELDS.NOT with the same names split the header: each
      field is in exactly one of the two answers, as often as it occurs. */
  lemma {:induction false} FieldsPartition(headers: seq<string>, fields: seq<Field>)
    ensures multiset(Sent(headers, false, fields)) + multiset(Sent(headers, true, fields)) == multiset(fields)
  {
    hide Locate;
    if fields != [] {
      FieldsPartition(headers, fields[1..]);
      assert fields == [fields[0]] + fields[1..];
    }
  }

  // ---------- which fields, in which words ----------

  ghost predicate Requested(headers: seq<string>, name: string) {
    exists i :: 0 <= i < |headers| && EqNoCase(headers[i], name)
  }

  /** Section 6.4.5 of RFC 3501: HEADER.FIELDS sends the fields whose names were requested,
      in any mix of cases, and HEADER.FIELDS.NOT the others. */
  lemma {:induction false} SentExactly(headers: seq<string>, not_: bool, fields: seq<Field>, f: Field)
    ensures f in Sent(headers, not_, fields) <==> f in fields && not_ != Requested(headers, f.name)
  {
    hide Locate, EqNoCase;
    if fields != [] {
      SentExactly(headers, not_, fields[1..], f);
      assert f in fields <==> f == fields[0] || f in fields[1..];
      assert Item(headers, not_, fields[0]).Some? <==> not_ != Requested(headers, fields[0].name);
    }
  }

  lemma SentStep(headers: seq<string>, not_: bool, f: Field, more: seq<Field>)
    ensures Item(headers, not_, f).Some? <==> not_ != Requested(headers, f.name)
    ensures Sent(headers, not_, [f] + more)
         == (if not_ != Requested(headers, f.name) then [f] else []) + Sent(headers, not_, more)
  {
    hide EqNoCase;
    assert ([f] + more)[1..] == more;
  }

  /** They are sent in the order of the header, as often as they occur. */
  lemma {:induction false} SentInOrder(headers: seq<string>, not_: bool, a: seq<Field>, b: seq<Field>)
    ensures Sent(headers, not_, a + b) == Sent(headers, not_, a) + Sent(headers, not_, b)
    ensures |a| == 1 ==> Sent(headers, not_, a) == if not_ != Requested(headers, a[0].name) then a else []
  {
    hide Sent, Requested;
    SentNothing(headers, not_);
    if a == [] {
      assert a + b == b;
    } else {
      var f, more := a[0], a[1..];
      SentInOrder(headers, not_, more, b);
      assert a == [f] + more && a + b == [f] + (more + b);
      SentStep(headers, not_, f, more);
      SentStep(headers, not_, f, more + b);
      var head := if not_ != Requested(headers, f.name) then [f] else [];
      AppendAssoc(head, Sent(headers, not_, more), Sent(headers, not_, b));
    }
  }

  lemma SentNothing(headers: seq<string>, not_: bool)
    ensures Sent(headers, not_, []) == []
  {
  }

  /** `word` is the first of the requested names that is `name`. */
  ghost predicate FirstNamed(headers: seq<string>, word: string, name: string) {
    exists i :: 0 <= i < |headers| && headers[i] == word && EqNoCase(word, name)
                && forall j :: 0 <= j < i ==> !EqNoCase(headers[j], name)
  }

  /** The names a list of fields goes out under: those of the request for HEADER.FIELDS,
      their own for the other. */
  ghost predicate Names(headers: seq<string>, not_: bool, fields: seq<Field>, words: seq<string>) {
    && |words| == |fields|
    && forall k :: 0 <= k < |fields| ==>
         if not_ then words[k] == fields[k].name else FirstNamed(headers, words[k], fields[k].name)
  }

  function FieldLines(words: seq<string>, fields: seq<Field>): string
    requires |words| == |fields|
  {
    if fields == [] then "" else words[0] + ": " + fields[0].value + "\n" + FieldLines(words[1..], fields[1..])
  }

  lemma {:induction false} LocateFirst(headers: seq<string>, name: string)
    ensures Locate(headers, name).Some? ==> FirstNamed(headers, Locate(headers, name).value, name)
  {
    hide EqNoCase;
    if headers != [] {
      LocateFirst(headers[1..], name);
      if EqNoCase(headers[0], name) {
        assert headers[0] == headers[0];
      } else if Locate(headers[1..], name).Some? {
        var word := Locate(headers[1..], name).value;
        var i :| 0 <= i < |headers[1..]| && headers[1..][i] == word && EqNoCase(word, name)
                 && forall j :: 0 <= j < i ==> !EqNoCase(headers[1..][j], name);
        assert headers[i + 1] == word && forall j :: 1 <= j < i + 1 ==> headers[j] == headers[1..][j - 1];
      }
    }
  }

  lemma LinesStep(words: seq<string>, fields: seq<Field>, word: string, f: Field)
    requires |words| == |fields|
    ensures FieldLines([word] + words, [f] + fields) == word + ": " + f.value + "\n" + FieldLines(words, fields)
  {
    assert ([word] + words)[1..] == words && ([f] + fields)[1..] == fields;
  }

  lemma NamesStep(headers: seq<string>, not_: bool, fields: seq<Field>, words: seq<string>, f: Field, word: string)
    requires Names(headers, not_, fields, words)
    requires if not_ then word == f.name else FirstNamed(headers, word, f.name)
    ensures Names(headers, not_, [f] + fields, [word] + words)
  {
    hide FirstNamed;
  }

  lemma ItemNamed(headers: seq<string>, not_: bool, f: Field)
    requires Item(headers, not_, f).Some?
    ensures var word := Item(headers, not_, f).value;
            if not_ then word == f.name else FirstNamed(headers, word, f.name)
  {
    hide Locate, FirstNamed;
    LocateFirst(headers, f.name);
  }

  /** What is sent: one line for each of these fields, under its name, and an empty line. */
  lemma TextExactly(headers: seq<string>, not_: bool, fields: seq<Field>) returns (words: seq<string>)
    ensures Names(headers, not_, Sent(headers, not_, fields), words)
    ensures HeaderText(headers, not_, fields) == FieldLines(words, Sent(headers, not_, fields)) + "\n"
  {
    words := LinesExactly(headers, not_, fields);
  }

  lemma {:induction false} LinesExactly(headers: seq<string>, not_: bool, fields: seq<Field>)
    returns (words: seq<string>)
    ensures Names(headers, not_, Sent(headers, not_, fields), words)
    ensures Collected(headers, not_, fields) == FieldLines(words, Sent(headers, not_, fields))
  {
    hide Item, Sent, Requested, FieldLines, Names, Collected;
    if fields == [] {
      words := [];
      NothingSent(headers, not_);
    } else {
      var f, more := fields[0], fields[1..];
      words := LinesExactly(headers, not_, more);
      assert fields == [f] + more;
      SentStep(headers, not_, f, more);
      CollectedCons(headers, not_, f, more);
      var sent := Sent(headers, not_, more);
      if Item(headers, not_, f).Some? {
        ItemNamed(headers, not_, f);
        var word := Item(headers, not_, f).value;
        NamesStep(headers, not_, sent, words, f, word);
        NamesSize(headers, not_, sent, words);
        LinesStep(words, sent, word, f);
        words := [word] + words;
      } else {
        assert [] + sent == sent;
      }
    }
  }

  lemma NamesSize(headers: seq<string>, not_: bool, fields: seq<Field>, words: seq<string>)
    requires Names(headers, not_, fields, words)
    ensures |words| == |fields|
  {
  }

  lemma NothingSent(headers: seq<string>, not_: bool)
    ensures Sent(headers, not_, []) == [] && Names(headers, not_, [], [])
    ensures Collected(headers, not_, []) == FieldLines([], [])
  {
  }

  /** HEADER.FIELDS (Subject) and HEADER.FIELDS.NOT (Subject), of a header with two fields. */
  lemma SubjectOnly()
    ensures var header := [Field("SUBJECT", "x"), Field("From", "a")];
            && HeaderText(["Subject"], false, header) == Line("Subject", "x") + "\n"
            && HeaderText(["Subject"], true, header) == Line("From", "a") + "\n"
    ensures Line("Subject", "x") == "Subject: x\n" && Line("From", "a") == "From: a\n"
  {
    hide EqNoCase, Item, Line;
    var s, f := Field("SUBJECT", "x"), Field("From", "a");
    SubjectItems(s, f);
    TwoLines(["Subject"], false, s, f);
    TwoLines(["Subject"], true, s, f);
    SubjectLines();
  }

  lemma SubjectLines()
    ensures Line("Subject", "x") == "Subject: x\n" && Line("From", "a") == "From: a\n"
  {
    assert Line("Subject", "x") == "Subject" + ": " + "x" + "\n";
  }

  lemma TwoLines(headers: seq<string>, not_: bool, s: Field, f: Field)
    ensures var a, b := Item(headers, not_, s), Item(headers, not_, f);
            Collected(headers, not_, [s, f])
            == (if a.Some? then Line(a.value, s.value) else []) + (if b.Some? then Line(b.value, f.value) else [])
  {
    hide Item, Line, Collected, NameLines;
    CollectedCons(headers, not_, s, [f]);
    CollectedCons(headers, not_, f, []);
    NoFields(headers, not_);
    assert [s] + [f] == [s, f] && [f] + [] == [f];
  }

  lemma SubjectItems(s: Field, f: Field)
    requires s.name == "SUBJECT" && f.name == "From"
    ensures Item(["Subject"], false, s) == Some("Subject") && Item(["Subject"], false, f) == None
    ensures Item(["Subject"], true, s) == None && Item(["Subject"], true, f) == Some("From")
  {
    hide EqNoCase;
    SubjectSpelling();
    assert ["Subject"][1..] == [];
  }

  lemma SubjectSpelling()
    ensures EqNoCase("Subject", "SUBJECT") && !EqNoCase("Subject", "From")
  {
    assert Fold("Subject") == Fold("SUBJECT");
    assert |Fold("Subject")| == 7 && |Fold("From")| == 4;
  }
}
