/** The command-line lexer as a pure function: what the tokens of one line are,
    with no buffer, no inserted NULs and no in-place unescaping. */
module Lexer {
  import opened Common

  /** ISDELIM, on characters other than NUL. */
  predicate IsParen(c: char) {
    c == '(' || c == ')'
  }

  predicate Escapable(c: char) {
    c == '\\' || c == '"'
  }

  function BlankSpan(s: string): (n: nat)
    ensures n <= |s|
    ensures forall i :: 0 <= i < n ==> IsBlank(s[i])
    ensures n < |s| ==> !IsBlank(s[n])
  {
    if s == [] || !IsBlank(s[0]) then 0 else 1 + BlankSpan(s[1..])
  }

  function AtomSpan(s: string): (n: nat)
    ensures n <= |s|
    ensures forall i :: 0 <= i < n ==> !IsBlank(s[i]) && !IsParen(s[i])
    ensures n < |s| ==> IsBlank(s[n]) || IsParen(s[n])
  {
    if s == [] || IsBlank(s[0]) || IsParen(s[0]) then 0 else 1 + AtomSpan(s[1..])
  }

  /** The closing quote as the server looks for it: the first quote from `p` on
      whose predecessor is not a backslash, whatever precedes that backslash; or the
      last character of the line, where the search ends at the NUL behind it. */
  function CloseQuote(s: string, p: nat): (r: Option<nat>)
    requires 1 <= p
    ensures r.Some? ==> p <= r.value < |s| && s[r.value] == '"' && (s[r.value - 1] != '\\' || r.value == |s| - 1)
    ensures r.Some? ==> forall i :: p <= i < r.value && s[i] == '"' ==> s[i - 1] == '\\'
    ensures r.None? ==> forall i :: p <= i < |s| && s[i] == '"' ==> s[i - 1] == '\\' && i < |s| - 1
    decreases |s| - p
  {
    if p >= |s| then None
    else if s[p] == '"' && (s[p - 1] != '\\' || p == |s| - 1) then Some(p)
    else CloseQuote(s, p + 1)
  }

  /** Removes each escaping backslash; None when one precedes anything that needs no
      escape.  Behind the body stands the closing quote, and a backslash at the end of
      the body escapes that. */
  function Unescape(s: string): (r: Option<string>)
    ensures r.Some? ==> |r.value| <= |s|
  {
    if s == [] then Some([])
    else if s[0] != '\\' then Prepend(s[0], Unescape(s[1..]))
    else if |s| == 1 then Some([])
    else if Escapable(s[1]) then Prepend(s[1], Unescape(s[2..]))
    else None
  }

  function Prepend<T>(x: T, xs: Option<seq<T>>): Option<seq<T>> {
    match xs
    case None => None
    case Some(v) => Some([x] + v)
  }

  /** The tokens of a line.  None when the line is outside the tokenizer's domain:
      a trailing blank, an unclosed initial quote, or a bad escape. */
  function Lex(s: string): Option<seq<string>>
    decreases |s|, 1
  {
    if s == [] then Some([]) else LexToken(s[BlankSpan(s)..])
  }

  function LexToken(t: string): Option<seq<string>>
    decreases |t|, 0
  {
    if t == [] then None
    else if t[0] == '"' then
      match CloseQuote(t, 1)
      case None => None
      case Some(q) =>
        match Unescape(t[1..q])
        case None => None
        case Some(u) => Prepend(u, Lex(t[q + 1..]))
    else if IsParen(t[0]) then Prepend(t[..1], Lex(t[1..]))
    else
      var n := AtomSpan(t);
      if n == 0 then None else Prepend(t[..n], Lex(t[n..]))
  }

  /** Whether the quote that closes `t`, at `q`, stands behind a backslash.  It is then
      the last character of the line, and the search went on to the byte behind it. */
  predicate Late(t: string, q: nat)
    requires 1 <= q < |t|
  {
    t[q - 1] == '\\'
  }

  function Bump(n: Option<nat>): Option<nat> {
    match n
    case None => None
    case Some(k) => Some(k + 1)
  }

  /** For a line whose last token is closed late, the number of gaps that the
      tokenizer opens before it, one behind each token that is not quoted. */
  function LateGap(s: string): Option<nat>
    decreases |s|, 1
  {
    if s == [] then None else LateToken(s[BlankSpan(s)..])
  }

  function LateToken(t: string): Option<nat>
    decreases |t|, 0
  {
    if t == [] then None
    else if t[0] == '"' then
      match CloseQuote(t, 1)
      case None => None
      case Some(q) => if Late(t, q) then Some(0) else LateGap(t[q + 1..])
    else if IsParen(t[0]) then Bump(LateGap(t[1..]))
    else
      var n := AtomSpan(t);
      if n == 0 then None else Bump(LateGap(t[n..]))
  }

  /** Only a quoted token is closed late. */
  lemma {:induction false} NoLateGap(s: string)
    requires '"' !in s
    ensures LateGap(s) == None
    decreases |s|, 1
  {
    if s != [] {
      var t := s[BlankSpan(s)..];
      assert forall c :: c in t ==> c in s;
      if t != [] {
        assert t[0] in t;
        var n := if IsParen(t[0]) then 1 else AtomSpan(t);
        if n > 0 {
          assert forall c :: c in t[n..] ==> c in t;
          NoLateGap(t[n..]);
        }
      }
    }
  }

  // ---------- quoting round trip ----------

  function EscapeChar(c: char): string {
    if Escapable(c) then ['\\', c] else [c]
  }

  function Escape(t: string): string {
    if t == [] then [] else EscapeChar(t[0]) + Escape(t[1..])
  }

  function Quote(t: string): string {
    "\"" + Escape(t) + "\""
  }

  predicate EndsInBackslash(t: string) {
    t != [] && t[|t| - 1] == '\\'
  }

  lemma UnescapeChar(c: char, s: string)
    ensures Unescape(EscapeChar(c) + s) == Prepend(c, Unescape(s))
  {
    var e := EscapeChar(c);
    assert (e + s)[|e|..] == s;
    assert Escapable(c) ==> (e + s)[0] == '\\' && (e + s)[1] == c;
  }

  lemma {:induction false} UnescapeEscape(t: string, w: string)
    ensures Unescape(Escape(t) + w) == match Unescape(w) case None => None case Some(v) => Some(t + v)
  {
    hide Unescape, EscapeChar, Escapable;
    if t == [] {
      assert Escape(t) + w == w;
      assert Unescape(w).Some? ==> t + Unescape(w).value == Unescape(w).value;
    } else {
      UnescapeEscape(t[1..], w);
      UnescapeChar(t[0], Escape(t[1..]) + w);
      assert Escape(t) + w == EscapeChar(t[0]) + (Escape(t[1..]) + w);
      assert Unescape(w).Some? ==> [t[0]] + (t[1..] + Unescape(w).value) == t + Unescape(w).value;
    }
  }

  /** Inside an escaped text every quote follows a backslash, and the last
      character is the last character of the text itself. */
  lemma {:induction false} EscapeShape(t: string)
    ensures forall i :: 0 <= i < |Escape(t)| && Escape(t)[i] == '"' ==> i > 0 && Escape(t)[i - 1] == '\\'
    ensures t == [] <==> Escape(t) == []
    ensures t != [] ==> Escape(t)[|Escape(t)| - 1] == t[|t| - 1]
  {
    if t != [] {
      EscapeShape(t[1..]);
    }
  }

  /** The first quote of `Quote(t) + rest` that closes it is the printed one, unless
      the text ends in a backslash and something follows; then it is a later one, if any. */
  lemma CloseQuoteOfQuote(t: string, rest: string)
    ensures CloseQuote(Quote(t) + rest, 1) == Some(|Escape(t)| + 1) <==> !EndsInBackslash(t) || rest == []
    ensures CloseQuote(Quote(t) + rest, 1).Some? ==> CloseQuote(Quote(t) + rest, 1).value >= |Escape(t)| + 1
  {
    var s, e := Quote(t) + rest, Escape(t);
    EscapeShape(t);
    assert forall i :: 1 <= i <= |e| ==> s[i] == e[i - 1];
    assert s[|e| + 1] == '"';
    assert s[|e|] == (if t == [] then '"' else t[|t| - 1]);
    var q := CloseQuote(s, 1);
    assert q.Some? ==> !(q.value <= |e|);
  }

  // ---------- one token at a time ----------

  lemma LexAt(t: string)
    requires t != [] && !IsBlank(t[0])
    ensures Lex(t) == LexToken(t) && LateGap(t) == LateToken(t)
  {
    assert t[0..] == t;
  }

  lemma LexSkipBlanks(s: string)
    requires Lex(s).Some? && s != []
    ensures BlankSpan(s) < |s| && Lex(s[BlankSpan(s)..]) == Lex(s) && LateGap(s[BlankSpan(s)..]) == LateGap(s)
  {
    LexAt(s[BlankSpan(s)..]);
  }

  lemma LexParenStep(s: string)
    requires s != [] && IsParen(s[0])
    ensures Lex(s) == Prepend(s[..1], Lex(s[1..])) && LateGap(s) == Bump(LateGap(s[1..]))
  {
    LexAt(s);
  }

  lemma LexAtomStep(s: string)
    requires s != [] && !IsBlank(s[0]) && !IsParen(s[0]) && s[0] != '"'
    ensures AtomSpan(s) > 0 && Lex(s) == Prepend(s[..AtomSpan(s)], Lex(s[AtomSpan(s)..]))
    ensures LateGap(s) == Bump(LateGap(s[AtomSpan(s)..]))
  {
    LexAt(s);
  }

  lemma LexQuoteStep(s: string)
    requires s != [] && s[0] == '"'
    ensures Lex(s) == match CloseQuote(s, 1)
                      case None => None
                      case Some(q) => match Unescape(s[1..q])
                                      case None => None
                                      case Some(u) => Prepend(u, Lex(s[q + 1..]))
    ensures LateGap(s) == match CloseQuote(s, 1)
                          case None => None
                          case Some(q) => if Late(s, q) then Some(0) else LateGap(s[q + 1..])
  {
    LexAt(s);
  }

  lemma UnescapeNothing()
    ensures Unescape([]) == Some([])
  {
  }

  lemma UnescapeNonEmpty(s: string)
    ensures s != [] && s[0] != '\\' && Unescape(s).Some? ==> Unescape(s).value != []
  {
  }

  /** Quoting a text and tokenizing the line gives the text back, exactly when the
      text does not end in a backslash or nothing follows it: before anything else the
      search for the closing quote takes the second backslash of a final `\\\\` for an
      escape and closes the string late. */
  lemma QuoteRoundTrip(t: string, rest: string)
    requires Lex(rest).Some?
    ensures Lex(Quote(t) + rest) == Prepend(t, Lex(rest)) <==> !EndsInBackslash(t) || rest == []
  {
    hide Lex, LateGap, Unescape, CloseQuote;
    var s, e := Quote(t) + rest, Escape(t);
    LexQuoteStep(s);
    CloseQuoteOfQuote(t, rest);
    var q := CloseQuote(s, 1);
    if q.Some? {
      var w := s[|e| + 1..q.value];
      assert s[1..q.value] == e + w;
      UnescapeEscape(t, w);
      if EndsInBackslash(t) && rest != [] {
        assert w[0] == '"';
        ClosedLate(t, w, Lex(s[q.value + 1..]));
      } else {
        UnescapeNothing();
        assert w == [] && t + [] == t;
        assert s[|e| + 2..] == rest;
      }
    }
  }

  /** A string closed late holds more than the text that was quoted. */
  lemma ClosedLate(t: string, w: string, more: Option<seq<string>>)
    requires w != [] && w[0] == '"'
    ensures Unescape(w).Some? && more.Some? ==> Prepend(t + Unescape(w).value, more).value[0] != t
  {
    UnescapeNonEmpty(w);
    assert Unescape(w).Some? ==> |t + Unescape(w).value| > |t|;
  }

  // ---------- the lexer inverts printing ----------

  datatype Item = Paren(c: char) | Word(w: string) | Quoted(t: string)

  /** One item of a line with the blanks printed before it. */
  datatype Spaced = Spaced(blanks: string, item: Item)

  function ItemText(i: Item): string {
    match i
    case Paren(c) => [c]
    case Word(w) => w
    case Quoted(t) => Quote(t)
  }

  function ItemToken(i: Item): string {
    match i
    case Paren(c) => [c]
    case Word(w) => w
    case Quoted(t) => t
  }

  predicate IsWord(w: string) {
    w != [] && w[0] != '"' && forall i :: 0 <= i < |w| ==> !IsBlank(w[i]) && !IsParen(w[i])
  }

  predicate GoodItem(i: Item, last: bool) {
    match i
    case Paren(c) => IsParen(c)
    case Word(w) => IsWord(w)
    case Quoted(t) => !EndsInBackslash(t) || last
  }

  /** Every item is printable where it stands, and only a parenthesis may touch a word
      on its right. */
  predicate GoodLine(items: seq<Spaced>) {
    && (forall i :: 0 <= i < |items| ==> GoodItem(items[i].item, i == |items| - 1))
    && (forall i :: 0 <= i < |items| ==> forall j :: 0 <= j < |items[i].blanks| ==> IsBlank(items[i].blanks[j]))
    && (forall i :: 0 < i < |items| && items[i - 1].item.Word? ==> items[i].item.Paren? || items[i].blanks != [])
  }

  function Render(items: seq<Spaced>): string {
    if items == [] then []
    else items[0].blanks + ItemText(items[0].item) + Render(items[1..])
  }

  function Tokens(items: seq<Spaced>): (ts: seq<string>)
    ensures |ts| == |items|
    ensures forall i :: 0 <= i < |ts| ==> ts[i] == ItemToken(items[i].item)
  {
    seq(|items|, i requires 0 <= i < |items| => ItemToken(items[i].item))
  }

  lemma BlankSpanOf(b: string, t: string)
    requires forall j :: 0 <= j < |b| ==> IsBlank(b[j])
    requires t != [] && !IsBlank(t[0])
    ensures BlankSpan(b + t) == |b|
  {
    var s := b + t;
    assert forall j :: 0 <= j < |b| ==> IsBlank(s[j]);
    assert !IsBlank(s[|b|]);
  }

  lemma AtomSpanOf(w: string, rest: string)
    requires IsWord(w)
    requires rest == [] || IsBlank(rest[0]) || IsParen(rest[0])
    ensures AtomSpan(w + rest) == |w|
  {
    var s := w + rest;
    assert forall j :: 0 <= j < |w| ==> !IsBlank(s[j]) && !IsParen(s[j]);
    assert rest != [] ==> IsBlank(s[|w|]) || IsParen(s[|w|]);
  }

  /** Lexing skips the blanks in front of the first token. */
  lemma LexBlanks(b: string, t: string)
    requires forall j :: 0 <= j < |b| ==> IsBlank(b[j])
    requires t != [] && !IsBlank(t[0])
    ensures Lex(b + t) == Lex(t)
  {
    BlankSpanOf(b, t);
    assert (b + t)[|b|..] == t;
    LexAt(t);
  }

  /** Lexing a printed item and what follows gives the item's token first. */
  lemma LexItem(x: Item, rest: string)
    requires GoodItem(x, rest == []) && Lex(rest).Some?
    requires x.Word? ==> rest == [] || IsBlank(rest[0]) || IsParen(rest[0])
    ensures Lex(ItemText(x) + rest) == Prepend(ItemToken(x), Lex(rest))
  {
    hide Lex;
    var t := ItemText(x) + rest;
    match x {
      case Paren(c) =>
        LexParenStep(t);
        assert t[1..] == rest && t[..1] == [c];
      case Word(w) =>
        AtomSpanOf(w, rest);
        LexAtomStep(t);
        assert t[..|w|] == w && t[|w|..] == rest;
      case Quoted(u) =>
        QuoteRoundTrip(u, rest);
    }
  }

  lemma GoodTail(items: seq<Spaced>)
    requires GoodLine(items) && items != []
    ensures GoodLine(items[1..])
    ensures Tokens(items) == [ItemToken(items[0].item)] + Tokens(items[1..])
  {
    var more := items[1..];
    assert forall i :: 0 <= i < |more| ==> more[i] == items[i + 1];
  }

  /** Lexing a printed line gives its items back, in order. */
  lemma {:induction false} LexRender(items: seq<Spaced>)
    requires GoodLine(items)
    ensures Lex(Render(items)) == Some(Tokens(items))
  {
    if items != [] {
      hide Lex, ItemText, ItemToken, GoodLine, GoodItem, IsWord, BlankSpan;
      var x, more := items[0], items[1..];
      GoodTail(items);
      LexRender(more);
      var rest := Render(more);
      if more != [] && x.item.Word? {
        assert more[0] == items[1];
        RenderHead(more);
      }
      LexItem(x.item, rest);
      ItemHead(x.item, rest);
      LexBlanks(x.blanks, ItemText(x.item) + rest);
      RenderCons(x, more);
      AppendAssoc(x.blanks, ItemText(x.item), rest);
      assert items == [x] + more;
    }
  }

  lemma ItemHead(x: Item, rest: string)
    requires GoodItem(x, true)
    ensures var t := ItemText(x) + rest; t != [] && !IsBlank(t[0])
  {
  }

  lemma RenderHead(items: seq<Spaced>)
    requires GoodLine(items) && items != [] && (items[0].item.Paren? || items[0].blanks != [])
    ensures Render(items) != [] && (IsBlank(Render(items)[0]) || IsParen(Render(items)[0]))
  {
    if items[0].blanks != [] {
      assert Render(items)[0] == items[0].blanks[0];
    }
  }

  // ---------- words with a blank between ----------

  function Join(words: seq<string>): string {
    if words == [] then []
    else if |words| == 1 then words[0]
    else words[0] + " " + Join(words[1..])
  }

  function WordItems(words: seq<string>, first: bool): seq<Spaced> {
    if words == [] then []
    else [Spaced(if first then "" else " ", Word(words[0]))] + WordItems(words[1..], false)
  }

  lemma {:induction false} WordItemsShape(words: seq<string>, first: bool)
    ensures var items := WordItems(words, first);
            && |items| == |words|
            && (forall i :: 0 <= i < |items| ==>
              items[i] == Spaced(if first && i == 0 then "" else " ", Word(words[i])))
            && Render(items) == (if words == [] || first then "" else " ") + Join(words)
  {
    if words != [] {
      WordItemsShape(words[1..], false);
      var items := WordItems(words, first);
      assert items[1..] == WordItems(words[1..], false);
      assert |words| == 1 ==> words[1..] == [];
    }
  }

  lemma LexWords(words: seq<string>)
    requires forall i :: 0 <= i < |words| ==> IsWord(words[i])
    ensures Lex(Join(words)) == Some(words)
  {
    hide IsWord, Lex, Render, Join, WordItems;
    WordItemsShape(words, true);
    LexRender(WordItems(words, true));
    assert Render(WordItems(words, true)) == Join(words);
    assert Tokens(WordItems(words, true)) == words;
  }

  lemma RenderCons(x: Spaced, more: seq<Spaced>)
    ensures Render([x] + more) == x.blanks + ItemText(x.item) + Render(more)
  {
    assert ([x] + more)[1..] == more;
  }

  /** The items of a word list between parentheses. */
  function Parenthesised(ws: seq<Spaced>): seq<Spaced> {
    [Spaced("", Paren('('))] + (ws + [Spaced("", Paren(')'))])
  }

  ghost predicate AreWords(ws: seq<Spaced>, words: seq<string>) {
    |ws| == |words| && forall i :: 0 <= i < |ws| ==> ws[i] == Spaced(if i == 0 then "" else " ", Word(words[i]))
  }

  lemma GoodParenthesised(words: seq<string>, ws: seq<Spaced>)
    requires AreWords(ws, words) && forall i :: 0 <= i < |words| ==> IsWord(words[i])
    ensures GoodLine(Parenthesised(ws))
  {
    hide IsWord;
    var items := Parenthesised(ws);
    assert forall i :: 1 <= i <= |words| ==> items[i] == ws[i - 1];
  }

  lemma TokensParenthesised(words: seq<string>, ws: seq<Spaced>)
    requires AreWords(ws, words)
    ensures Tokens(Parenthesised(ws)) == ["("] + words + [")"]
  {
    var items := Parenthesised(ws);
    assert forall i :: 1 <= i <= |words| ==> items[i] == ws[i - 1];
  }

  lemma {:induction false} LexParenthesised(words: seq<string>)
    requires forall i :: 0 <= i < |words| ==> IsWord(words[i])
    ensures Lex("(" + Join(words) + ")") == Some(["("] + words + [")"])
  {
    hide IsWord, Lex, Join, WordItems, GoodLine, Tokens;
    var o, c := Spaced("", Paren('(')), Spaced("", Paren(')'));
    var ws := WordItems(words, true);
    WordItemsShape(words, true);
    RenderAppend(ws, [c]);
    RenderCons(o, ws + [c]);
    RenderCons(c, []);
    assert [c] + [] == [c];
    var items := [o] + (ws + [c]);
    assert Render(items) == "(" + Join(words) + ")";
    GoodParenthesised(words, ws);
    LexRender(items);
    TokensParenthesised(words, ws);
  }

  lemma {:induction false} RenderAppend(a: seq<Spaced>, b: seq<Spaced>)
    ensures Render(a + b) == Render(a) + Render(b)
  {
    hide ItemText;
    if a == [] {
      assert a + b == b;
    } else {
      RenderAppend(a[1..], b);
      var s := a + b;
      assert s[1..] == a[1..] + b && s[0] == a[0];
      var h, x, y := a[0].blanks + ItemText(a[0].item), Render(a[1..]), Render(b);
      AppendAssoc(h, x, y);
    }
  }
}
