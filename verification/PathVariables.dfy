/** The expansion of variables in a path (mu_str_expand), which the server applies to the
    whole path of a mailbox, the client's name for it included. */
module PathVariables {
  import opened Common

  /** What a text is expanded with: the variables that are defined; and, for the forms
      that the model does not open, what the library makes of a text with a command in
      it, and of a text that starts with a reference such as `${x:-y}`.  None stands for
      an expansion that fails. */
  datatype Env = Env(
    vars: string -> Option<string>,
    modified: string -> Option<string>,
    commands: string -> Option<string>)

  predicate IsVarBegin(c: char) {
    'A' <= c <= 'Z' || 'a' <= c <= 'z' || c == '_'
  }

  predicate IsNameChar(c: char) {
    IsVarBegin(c) || IsDigit(c)
  }

  /** begin_var_p */
  predicate BeginsReference(c: char) {
    c == '{' || c == '#' || c == '@' || c == '*' || IsNameChar(c)
  }

  predicate IsModifier(c: char) {
    c == '-' || c == '+' || c == '?' || c == '='
  }

  /** The length of the name at the start of `s`. */
  function NameSpan(s: string): (n: nat)
    ensures n <= |s|
    ensures forall i :: 0 <= i < n ==> IsNameChar(s[i])
    ensures n < |s| ==> !IsNameChar(s[n])
  {
    if s == [] || !IsNameChar(s[0]) then 0 else 1 + NameSpan(s[1..])
  }

  datatype Reference = Variable(name: string, len: nat) | Plain | Modified | Unclosed

  /** What the text behind a dollar sign refers to. */
  function ReferenceOf(t: string): (r: Reference)
    requires t != []
    ensures r.Variable? ==> 0 < r.len <= |t|
  {
    var n := NameSpan(t);
    if IsVarBegin(t[0]) then Variable(t[..n], n)
    else if t[0] == '{' && |t| > 1 && IsVarBegin(t[1]) then
      var m := NameSpan(t[1..]);
      Braced(t[1..m + 1], t[m + 1..])
    else Plain
  }

  /** What a name behind an opening brace refers to, by the text behind the name. */
  function Braced(name: string, rest: string): (r: Reference)
    ensures r.Variable? ==> r.len == |name| + 2 && rest != []
  {
    if rest == [] || rest == ":" then Unclosed
    else if rest[0] == '}' then Variable(name, |name| + 2)
    else if IsModifier(rest[0]) || (rest[0] == ':' && IsModifier(rest[1])) then Modified
    else Plain
  }

  /** The value of a variable; an undefined one is empty. */
  function ValueOf(e: Env, name: string): string {
    match e.vars(name)
    case Some(v) => v
    case None => []
  }

  function Before(a: string, r: Option<string>): Option<string> {
    match r
    case None => None
    case Some(b) => Some(a + b)
  }

  predicate RefersAt(t: string) {
    |t| > 1 && t[0] == '$' && BeginsReference(t[1])
  }

  /** The text with its variables replaced by their values; a backslash stays, and keeps
      the character behind it as it is. */
  function VarExpand(e: Env, t: string): Option<string>
    decreases |t|
  {
    if t == [] then Some([])
    else if t[0] == '\\' then Before(t[..if |t| > 1 then 2 else 1], VarExpand(e, t[if |t| > 1 then 2 else 1..]))
    else if RefersAt(t) then
      var ref := ReferenceOf(t[1..]);
      if ref.Variable? then Before(ValueOf(e, ref.name), VarExpand(e, t[1 + ref.len..]))
      else if ref.Plain? then Before(t[..2], VarExpand(e, t[2..]))
      else if ref.Modified? then e.modified(t)
      else None
    else Before(t[..1], VarExpand(e, t[1..]))
  }

  /** Whether a command is substituted in the text. */
  predicate HasCommand(t: string)
    decreases |t|
  {
    if t == [] then false
    else if t[0] == '\\' then HasCommand(t[if |t| > 1 then 2 else 1..])
    else (t[0] == '$' && |t| > 1 && t[1] == '(') || HasCommand(t[1..])
  }

  /** mu_str_expand */
  function Expand(e: Env, t: string): Option<string> {
    if HasCommand(t) then e.commands(t) else VarExpand(e, t)
  }

  /** node_expand with expvar: the loop over the references in a text */
  method NodeExpand(e: Env, t: string) returns (r: Option<string>)
    ensures r == VarExpand(e, t)
  {
    hide VarExpand, ReferenceOf;
    var out: string := [];
    var p := 0;
    assert t[0..] == t;
    Nothing(VarExpand(e, t));
    while p < |t|
      invariant p <= |t| && VarExpand(e, t) == Before(out, VarExpand(e, t[p..]))
      decreases |t| - p
    {
      ghost var rest := t[p..];
      ExpandStep(e, rest);
      var step := 1;
      var piece := t[p..p + 1];
      if t[p] == '\\' && p + 1 < |t| {
        step, piece := 2, t[p..p + 2];
      } else if t[p] == '$' && p + 1 < |t| && BeginsReference(t[p + 1]) {
        assert t[p + 1..] == rest[1..];
        var ref := ReferenceOf(t[p + 1..]);
        if ref.Unclosed? {
          return None;
        } else if ref.Modified? {
          return Before(out, e.modified(t[p..]));
        } else if ref.Variable? {
          step, piece := 1 + ref.len, ValueOf(e, ref.name);
        } else {
          step, piece := 2, t[p..p + 2];
        }
      }
      assert rest[step..] == t[p + step..] && rest[..1] == t[p..p + 1];
      assert |rest| > 1 ==> rest[..2] == t[p..p + 2];
      assert VarExpand(e, rest) == Before(piece, VarExpand(e, rest[step..]));
      BeforeMore(out, piece, VarExpand(e, t[p + step..]));
      out := out + piece;
      p := p + step;
    }
    ExpandNothing(e);
    assert t[p..] == [] && out + [] == out;
    r := Some(out);
  }

  lemma Nothing(r: Option<string>)
    ensures Before([], r) == r
  {
    assert r.Some? ==> [] + r.value == r.value;
  }

  lemma BeforeMore(a: string, b: string, r: Option<string>)
    ensures Before(a + b, r) == Before(a, Before(b, r))
  {
    if r.Some? {
      AppendAssoc(a, b, r.value);
    }
  }

  lemma ExpandNothing(e: Env)
    ensures VarExpand(e, []) == Some([])
  {
  }

  /** One round of the loop. */
  lemma ExpandStep(e: Env, t: string)
    requires t != []
    ensures t[0] == '\\' && |t| > 1 ==> VarExpand(e, t) == Before(t[..2], VarExpand(e, t[2..]))
    ensures t[0] == '\\' && |t| == 1 ==> VarExpand(e, t) == Before(t[..1], VarExpand(e, t[1..]))
    ensures t[0] != '\\' && !RefersAt(t) ==> VarExpand(e, t) == Before(t[..1], VarExpand(e, t[1..]))
    ensures RefersAt(t) ==>
              var ref := ReferenceOf(t[1..]);
              && (ref.Variable? ==> VarExpand(e, t) == Before(ValueOf(e, ref.name), VarExpand(e, t[1 + ref.len..])))
              && (ref.Plain? ==> VarExpand(e, t) == Before(t[..2], VarExpand(e, t[2..])))
              && (ref.Modified? ==> VarExpand(e, t) == e.modified(t))
              && (ref.Unclosed? ==> VarExpand(e, t) == None)
  {
    hide ReferenceOf;
  }

  // ---------- texts that stay, and texts that can be continued ----------

  /** A text without a dollar sign stays as it is, whatever is defined. */
  lemma {:induction false} NoDollar(e: Env, t: string)
    requires '$' !in t
    ensures !HasCommand(t) && Expand(e, t) == VarExpand(e, t) == Some(t)
    decreases |t|
  {
    if t != [] {
      hide ReferenceOf, Expand;
      var n := if t[0] == '\\' && |t| > 1 then 2 else 1;
      assert t == t[..n] + t[n..] && forall c :: c in t[n..] ==> c in t;
      NoDollar(e, t[n..]);
      NoCommandStep(t);
      ExpandStep(e, t);
    }
    NotCommanded(e, t);
  }

  lemma NoCommandStep(t: string)
    requires t != [] && t[0] != '$'
    ensures HasCommand(t) == HasCommand(t[if t[0] == '\\' && |t| > 1 then 2 else 1..])
  {
  }

  lemma NotCommanded(e: Env, t: string)
    ensures !HasCommand(t) ==> Expand(e, t) == VarExpand(e, t)
  {
  }

  /** A text with nothing but variables, which no slash behind it can change. */
  predicate Simple(t: string)
    decreases |t|
  {
    if t == [] then true
    else if t[0] == '\\' then Simple(t[if |t| > 1 then 2 else 1..])
    else if t[0] == '$' && |t| > 1 && t[1] == '(' then false
    else if RefersAt(t) then
      var ref := ReferenceOf(t[1..]);
      if ref.Variable? then Simple(t[1 + ref.len..]) else ref.Plain? && Simple(t[2..])
    else Simple(t[1..])
  }

  /** Text before the first dollar sign or backslash stays. */
  lemma {:induction false} PlainBefore(e: Env, a: string, b: string)
    requires '$' !in a && '\\' !in a
    ensures VarExpand(e, a + b) == Before(a, VarExpand(e, b)) && HasCommand(a + b) == HasCommand(b)
  {
    hide VarExpand, ReferenceOf, HasCommand;
    if a == [] {
      assert a + b == b;
      Nothing(VarExpand(e, b));
    } else {
      var s, more := a + b, a[1..];
      assert s[0] == a[0] && s[..1] == a[..1] && s[1..] == more + b;
      assert a[0] in a && forall c :: c in more ==> c in a;
      PlainBefore(e, more, b);
      ExpandStep(e, s);
      CommandHead(s);
      BeforeMore(a[..1], more, VarExpand(e, b));
      assert a == a[..1] + more;
    }
  }

  lemma {:induction false} NoDollarSimple(t: string)
    requires '$' !in t
    ensures Simple(t)
    decreases |t|
  {
    if t != [] {
      var n := if t[0] == '\\' && |t| > 1 then 2 else 1;
      assert t[0] in t && forall c :: c in t[n..] ==> c in t;
      NoDollarSimple(t[n..]);
    }
  }

  predicate Slashed(t: string) {
    t == [] || t[0] == '/'
  }

  lemma NameSpanKept(x: string, t: string)
    requires Slashed(t)
    ensures NameSpan(x + t) == NameSpan(x)
  {
    var n := NameSpan(x);
    assert forall i :: 0 <= i < |x| ==> (x + t)[i] == x[i];
    assert n == |x| && t != [] ==> (x + t)[n] == '/';
  }

  lemma ReferenceKept(x: string, t: string)
    requires x != [] && Slashed(t) && (ReferenceOf(x).Variable? || ReferenceOf(x).Plain?)
    ensures ReferenceOf(x + t) == ReferenceOf(x)
  {
    hide NameSpan;
    var n := NameSpan(x);
    NameSpanKept(x, t);
    assert (x + t)[..n] == x[..n] && (x + t)[0] == x[0];
    if x[0] == '{' {
      var y := x[1..];
      var m := NameSpan(y);
      NameSpanKept(y, t);
      assert (x + t)[1..] == y + t;
      Kept(x, t, m + 1);
    }
  }

  lemma Kept(x: string, t: string, m: nat)
    requires 1 <= m <= |x|
    ensures (x + t)[1..m] == x[1..m] && (x + t)[m..] == x[m..] + t
  {
  }

  /** How far the first round of the loop goes in a simple text, and what it writes. */
  function Step(t: string): (n: nat)
    requires t != [] && Simple(t)
    ensures 0 < n <= |t| && Simple(t[n..])
  {
    if t[0] == '\\' then (if |t| > 1 then 2 else 1)
    else if RefersAt(t) then
      var ref := ReferenceOf(t[1..]);
      if ref.Variable? then 1 + ref.len else 2
    else 1
  }

  function Piece(e: Env, t: string): string
    requires t != [] && Simple(t)
  {
    if t[0] != '\\' && RefersAt(t) && ReferenceOf(t[1..]).Variable? then ValueOf(e, ReferenceOf(t[1..]).name)
    else t[..Step(t)]
  }

  lemma SimpleStep(e: Env, t: string)
    requires t != [] && Simple(t)
    ensures VarExpand(e, t) == Before(Piece(e, t), VarExpand(e, t[Step(t)..]))
    ensures HasCommand(t) == HasCommand(t[Step(t)..])
  {
    hide VarExpand, ReferenceOf, ValueOf;
    ExpandStep(e, t);
    CommandStep(t);
  }

  /** No reference holds the start of a command. */
  lemma CommandStep(t: string)
    requires t != [] && Simple(t)
    ensures HasCommand(t) == HasCommand(t[Step(t)..])
  {
    hide Simple, NameSpan;
    SimpleHead(t);
    var n := Step(t);
    if t[0] != '\\' && RefersAt(t) {
      ReferenceLetters(t[1..]);
      assert forall i :: 1 <= i < n ==> t[i] == t[1..][i - 1];
      SkipLetters(t, n);
    }
  }

  lemma SimpleHead(t: string)
    requires t != [] && Simple(t)
    ensures !(t[0] == '$' && |t| > 1 && t[1] == '(')
    ensures t[0] != '\\' && RefersAt(t) ==> ReferenceOf(t[1..]).Variable? || ReferenceOf(t[1..]).Plain?
  {
    hide ReferenceOf;
  }

  lemma ReferenceLetters(x: string)
    requires x != [] && BeginsReference(x[0])
    ensures var r := ReferenceOf(x);
            && (r.Variable? ==> forall i :: 0 <= i < r.len ==> BeginsReference(x[i]) || x[i] == '}')
  {
  }

  lemma {:induction false} SkipLetters(t: string, n: nat)
    requires 0 < n <= |t| && t[0] == '$' && (n > 1 || |t| == 1 || t[1] != '(')
    requires forall i :: 1 <= i < n ==> BeginsReference(t[i]) || t[i] == '}'
    ensures HasCommand(t) == HasCommand(t[n..])
  {
    assert HasCommand(t) == HasCommand(t[1..]);
    var i := 1;
    while i < n
      invariant 1 <= i <= n && HasCommand(t) == HasCommand(t[i..])
    {
      assert t[i..][1..] == t[i + 1..] && t[i..][0] == t[i];
      i := i + 1;
    }
  }

  /** What is put behind a simple text, from a slash on, is expanded by itself. */
  lemma {:induction false} SimpleExpand(e: Env, d: string, t: string)
    requires Simple(d) && Slashed(t)
    ensures VarExpand(e, d).Some? && !HasCommand(d)
    ensures VarExpand(e, d + t) == Before(VarExpand(e, d).value, VarExpand(e, t))
    ensures HasCommand(d + t) == HasCommand(t)
    decreases |d|
  {
    hide VarExpand, HasCommand, Simple, ReferenceOf;
    if d == [] {
      NothingSimple(e);
      assert d + t == t;
      Nothing(VarExpand(e, t));
    } else {
      var n := Step(d);
      SimpleExpand(e, d[n..], t);
      SimpleStep(e, d);
      StepKept(e, d, t);
      BeforeMore(Piece(e, d), VarExpand(e, d[n..]).value, VarExpand(e, t));
    }
  }

  lemma NothingSimple(e: Env)
    ensures VarExpand(e, []) == Some([]) && !HasCommand([])
  {
  }

  lemma StepKept(e: Env, d: string, t: string)
    requires d != [] && Simple(d) && Slashed(t)
    ensures var n := Step(d);
            && VarExpand(e, d + t) == Before(Piece(e, d), VarExpand(e, d[n..] + t))
            && HasCommand(d + t) == HasCommand(d[n..] + t)
  {
    hide VarExpand, HasCommand, Simple, ReferenceOf;
    var n, s := Step(d), d + t;
    assert s[n..] == d[n..] + t && s[..n] == d[..n] && s[0] == d[0];
    if d[0] == '\\' {
      EscapeKept(e, d, t);
    } else {
      SimpleHead(d);
      assert RefersAt(s) == RefersAt(d);
      ExpandStep(e, s);
      if RefersAt(d) {
        var x := d[1..];
        ReferenceKept(x, t);
        assert s[1..] == x + t;
        ReferenceLetters(x);
        assert forall i :: 1 <= i < n ==> s[i] == x[i - 1];
        SkipLetters(s, n);
      } else {
        CommandHead(s);
      }
    }
  }

  lemma CommandHead(s: string)
    requires s != [] && s[0] != '\\' && !(s[0] == '$' && |s| > 1 && s[1] == '(')
    ensures HasCommand(s) == HasCommand(s[1..])
  {
  }

  /** A backslash at the end keeps the slash behind it, which stays anyway. */
  lemma EscapeKept(e: Env, d: string, t: string)
    requires d != [] && d[0] == '\\' && Slashed(t)
    ensures var n := if |d| > 1 then 2 else 1;
            && VarExpand(e, d + t) == Before(d[..n], VarExpand(e, d[n..] + t))
            && HasCommand(d + t) == HasCommand(d[n..] + t)
  {
    hide VarExpand, ReferenceOf;
    var n, s := if |d| > 1 then 2 else 1, d + t;
    assert s[n..] == d[n..] + t && s[..n] == d[..n];
    ExpandStep(e, s);
    if |d| == 1 && t != [] {
      assert d[1..] + t == t && s[..2] == d[..1] + t[..1] && s[2..] == t[1..];
      ExpandStep(e, t);
      BeforeMore(d[..1], t[..1], VarExpand(e, t[1..]));
      CommandHead(t);
    }
  }

  // ---------- variables by their names ----------

  /** A name as the shell knows them. */
  predicate IsName(name: string) {
    && name != [] && !('0' <= name[0] <= '9')
    && forall c :: c in name ==> 'a' <= c <= 'z' || 'A' <= c <= 'Z' || '0' <= c <= '9' || c == '_'
  }

  lemma {:induction false} NameSpanOf(name: string, t: string)
    requires forall c :: c in name ==> 'a' <= c <= 'z' || 'A' <= c <= 'Z' || '0' <= c <= '9' || c == '_'
    requires t == [] || !('a' <= t[0] <= 'z' || 'A' <= t[0] <= 'Z' || '0' <= t[0] <= '9' || t[0] == '_')
    ensures NameSpan(name + t) == |name|
  {
    var s := name + t;
    if name == [] {
      assert s == t;
    } else {
      assert s[0] == name[0] && s[0] in name && s[1..] == name[1..] + t;
      assert forall c :: c in name[1..] ==> c in name;
      NameSpanOf(name[1..], t);
    }
  }

  /** `$name`, up to the first character that cannot belong to the name, is replaced by the
      value of the variable, or by nothing if there is none. */
  lemma Substituted(e: Env, name: string, t: string)
    requires IsName(name)
    requires t == [] || !('a' <= t[0] <= 'z' || 'A' <= t[0] <= 'Z' || '0' <= t[0] <= '9' || t[0] == '_')
    ensures VarExpand(e, "$" + name + t)
         == Before(if e.vars(name).Some? then e.vars(name).value else "", VarExpand(e, t))
  {
    hide VarExpand, NameSpan;
    var s := "$" + name + t;
    NameSpanOf(name, t);
    assert s[1..] == name + t && name[0] in name && (name + t)[..|name|] == name;
    assert ReferenceOf(s[1..]) == Variable(name, |name|);
    assert s[1 + |name|..] == t;
    ExpandStep(e, s);
  }

  /** `${name}`, whatever follows. */
  lemma SubstitutedInBraces(e: Env, name: string, t: string)
    requires IsName(name)
    ensures VarExpand(e, "${" + name + "}" + t)
         == Before(if e.vars(name).Some? then e.vars(name).value else "", VarExpand(e, t))
  {
    hide VarExpand, NameSpan;
    var s, rest := "${" + name + "}" + t, "}" + t;
    NameSpanOf(name, rest);
    assert s[1..][1..] == name + rest && name[0] in name && s[2] == name[0];
    assert s[1..][1..|name| + 1] == name && s[1..][|name| + 1..] == rest;
    assert ReferenceOf(s[1..]) == Variable(name, |name| + 2);
    assert s[1 + (|name| + 2)..] == t;
    ExpandStep(e, s);
  }

  /** What stands behind the name in braces decides. */
  lemma BracedReference(e: Env, name: string, rest: string)
    requires IsName(name)
    requires rest == [] ||
             !('a' <= rest[0] <= 'z' || 'A' <= rest[0] <= 'Z' || '0' <= rest[0] <= '9' || rest[0] == '_')
    ensures RefersAt("${" + name + rest) && ReferenceOf(("${" + name + rest)[1..]) == Braced(name, rest)
  {
    hide NameSpan, Braced;
    var s := "${" + name + rest;
    NameSpanOf(name, rest);
    assert s[1..][1..] == name + rest && name[0] in name && s[2] == name[0];
    assert s[1..][1..|name| + 1] == name && s[1..][|name| + 1..] == rest;
  }

  /** `${name-`, `${name:-` and their kind begin a default or an alternative, which is not
      opened further; before anything else but `}` and `:` the brace is plain text. */
  lemma OtherReferences(e: Env, name: string, c: char, t: string)
    requires IsName(name) && c !in {'}', ':'}
    requires !('a' <= c <= 'z' || 'A' <= c <= 'Z' || '0' <= c <= '9' || c == '_')
    ensures var s := "${" + name + ([c] + t);
            VarExpand(e, s) == if c in {'-', '+', '?', '='} then e.modified(s) else Before("${", VarExpand(e, s[2..]))
    ensures c in {'-', '+', '?', '='} ==>
              VarExpand(e, "${" + name + (":" + ([c] + t))) == e.modified("${" + name + (":" + ([c] + t)))
  {
    hide VarExpand, NameSpan, ReferenceOf, RefersAt, IsName;
    var s := "${" + name + ([c] + t);
    BracedReference(e, name, [c] + t);
    assert s[..2] == "${";
    ExpandStep(e, s);
    if c in {'-', '+', '?', '='} {
      BracedReference(e, name, ":" + ([c] + t));
      ExpandStep(e, "${" + name + (":" + ([c] + t)));
    }
  }

  /** A backslash keeps the dollar sign behind it, and stays. */
  lemma Escaped(e: Env, t: string)
    ensures VarExpand(e, "\\$" + t) == Before("\\$", VarExpand(e, t))
  {
    hide VarExpand;
    var s := "\\$" + t;
    assert s[..2] == "\\$" && s[2..] == t;
    ExpandStep(e, s);
  }
}
