/** Mailbox names and paths: which namespace prefix a name belongs to, and the path it
    is translated to. */
module Namespace {
  import opened Common
  import opened PathVariables

  datatype Ns = Personal | Other | Shared

  datatype Prefix = Prefix(prefix: string, dir: string, delim: char, ns: Ns)

  // ---------- the prefix table ----------

  /** No prefix twice, and the empty one only in the personal namespace. */
  predicate Distinct(ps: seq<Prefix>) {
    forall i, j :: 0 <= i < j < |ps| ==> ps[i].prefix != ps[j].prefix
  }

  predicate Sorted(ps: seq<Prefix>) {
    forall i, j :: 0 <= i < j < |ps| ==> |ps[i].prefix| >= |ps[j].prefix|
  }

  predicate HasEmpty(ps: seq<Prefix>) {
    exists i :: 0 <= i < |ps| && ps[i].prefix == []
  }

  /** What namespace_init leaves behind. */
  predicate Table(ps: seq<Prefix>) {
    Distinct(ps) && Sorted(ps) && HasEmpty(ps)
  }

  /** cmplen */
  function CmpLen(a: Prefix, b: Prefix): int {
    |b.prefix| - |a.prefix|
  }

  /** Puts a prefix where the order by length has it. */
  method Insert(ps: seq<Prefix>, p: Prefix) returns (r: seq<Prefix>)
    requires Sorted(ps) && Distinct(ps) && forall i :: 0 <= i < |ps| ==> ps[i].prefix != p.prefix
    ensures Sorted(r) && Distinct(r) && multiset(r) == multiset(ps) + multiset{p}
  {
    hide Sorted, Distinct;
    var i := 0;
    while i < |ps| && CmpLen(ps[i], p) <= 0
      invariant i <= |ps| && forall k :: 0 <= k < i ==> |ps[k].prefix| >= |p.prefix|
    {
      i := i + 1;
    }
    r := ps[..i] + [p] + ps[i..];
    InsertedSorted(ps, p, i);
    InsertedDistinct(ps, p, i);
    assert ps == ps[..i] + ps[i..];
  }

  lemma InsertedSorted(ps: seq<Prefix>, p: Prefix, i: nat)
    requires Sorted(ps) && i <= |ps|
    requires forall k :: 0 <= k < i ==> |ps[k].prefix| >= |p.prefix|
    requires i < |ps| ==> |ps[i].prefix| < |p.prefix|
    ensures Sorted(ps[..i] + [p] + ps[i..])
  {
    var r := ps[..i] + [p] + ps[i..];
    forall j, k | 0 <= j < k < |r| ensures |r[j].prefix| >= |r[k].prefix| {
      assert r[j] == if j < i then ps[j] else if j == i then p else ps[j - 1];
      assert r[k] == if k < i then ps[k] else if k == i then p else ps[k - 1];
    }
  }

  lemma InsertedDistinct(ps: seq<Prefix>, p: Prefix, i: nat)
    requires Distinct(ps) && i <= |ps| && forall k :: 0 <= k < |ps| ==> ps[k].prefix != p.prefix
    ensures Distinct(ps[..i] + [p] + ps[i..])
  {
    var r := ps[..i] + [p] + ps[i..];
    forall j, k | 0 <= j < k < |r| ensures r[j].prefix != r[k].prefix {
      assert r[j] == if j < i then ps[j] else if j == i then p else ps[j - 1];
      assert r[k] == if k < i then ps[k] else if k == i then p else ps[k - 1];
    }
  }

  method Lookup(ps: seq<Prefix>, name: string) returns (at: Option<nat>)
    ensures at.Some? ==> at.value < |ps| && ps[at.value].prefix == name
    ensures at.None? ==> forall i :: 0 <= i < |ps| ==> ps[i].prefix != name
  {
    for i := 0 to |ps|
      invariant forall k :: 0 <= k < i ==> ps[k].prefix != name
    {
      if ps[i].prefix == name {
        return Some(i);
      }
    }
    at := None;
  }

  /** trim_delim */
  method TrimDelim(str: string) returns (r: string)
    ensures r == Trimmed(str)
  {
    var len := |str|;
    while len > 0 && str[len - 1] == '/'
      invariant 0 <= len <= |str| && Trimmed(str) == Trimmed(str[..len])
    {
      assert str[..len][..len - 1] == str[..len - 1];
      len := len - 1;
    }
    r := str[..len];
  }

  function Trimmed(s: string): (r: string)
    ensures r <= s && (r != [] ==> r[|r| - 1] != '/')
    ensures forall i :: |r| <= i < |s| ==> s[i] == '/'
  {
    if s != [] && s[|s| - 1] == '/' then Trimmed(s[..|s| - 1]) else s
  }

  const HOME: Prefix := Prefix("", "$home", '/', Personal)

  function Installed(p: Prefix): Prefix {
    p.(dir := Trimmed(p.dir))
  }

  /** The configured prefixes as they are installed. */
  function AllInstalled(config: seq<Prefix>): seq<Prefix> {
    seq(|config|, i requires 0 <= i < |config| => Installed(config[i]))
  }

  /** Whether the configuration is refused. */
  predicate Refused(config: seq<Prefix>) {
    || !Distinct(config)
    || exists i :: 0 <= i < |config| && config[i].prefix == [] && config[i].ns != Personal
  }

  /** namespace_init; None when the program exits over the configuration */
  method Init(config: seq<Prefix>) returns (r: Option<seq<Prefix>>)
    ensures r.None? <==> Refused(config)
    ensures r.Some? ==> Table(r.value)
    ensures r.Some? ==>
              multiset(r.value) == multiset(AllInstalled(config))
                + (if HasEmpty(config) then multiset{} else multiset{HOME})
  {
    var ps: seq<Prefix> := [];
    for i := 0 to |config|
      invariant Sorted(ps) && Distinct(ps) && Distinct(config[..i])
      invariant multiset(ps) == multiset(AllInstalled(config[..i]))
    {
      var pfx := config[i];
      SamePrefixes(ps, config[..i], pfx.prefix);
      assert config[..i + 1] == config[..i] + [pfx];
      var dup := Lookup(ps, pfx.prefix);
      if dup.Some? {
        assert !Distinct(config);
        return None;
      }
      var dir := TrimDelim(pfx.dir);
      ps := Insert(ps, pfx.(dir := dir));
      assert AllInstalled(config[..i + 1]) == AllInstalled(config[..i]) + [Installed(pfx)];
    }
    assert config[..|config|] == config;
    SamePrefixes(ps, config, []);
    var empty := Lookup(ps, []);
    if empty.Some? {
      EmptyNs(ps, config, empty.value);
      if ps[empty.value].ns != Personal {
        return None;
      }
    } else {
      ps := Insert(ps, HOME);
      assert HOME in multiset(ps);
    }
    r := Some(ps);
  }

  /** The same prefixes are installed as were configured. */
  lemma SamePrefixes(ps: seq<Prefix>, config: seq<Prefix>, name: string)
    requires multiset(ps) == multiset(AllInstalled(config))
    ensures (exists i :: 0 <= i < |ps| && ps[i].prefix == name) <==>
              exists i :: 0 <= i < |config| && config[i].prefix == name
  {
    var all := AllInstalled(config);
    forall i | 0 <= i < |ps| && ps[i].prefix == name ensures exists k :: 0 <= k < |config| && config[k].prefix == name {
      assert ps[i] in multiset(ps) && ps[i] in all;
    }
    forall k | 0 <= k < |config| && config[k].prefix == name ensures exists i :: 0 <= i < |ps| && ps[i].prefix == name {
      assert all[k] in multiset(all) && all[k] in ps;
    }
  }

  lemma EmptyNs(ps: seq<Prefix>, config: seq<Prefix>, at: nat)
    requires multiset(ps) == multiset(AllInstalled(config)) && Distinct(config)
    requires at < |ps| && ps[at].prefix == []
    ensures ps[at].ns != Personal <==>
              exists i :: 0 <= i < |config| && config[i].prefix == [] && config[i].ns != Personal
  {
    var all := AllInstalled(config);
    assert ps[at] in multiset(ps) && ps[at] in all;
    var k :| 0 <= k < |all| && all[k] == ps[at];
    assert forall i :: 0 <= i < |config| && config[i].prefix == [] ==> i == k;
  }

  // ---------- the prefix of a name ----------

  predicate Matches(p: Prefix, name: string) {
    p.prefix <= name
  }

  /** The first prefix in the table that the name begins with. */
  function Chosen(ps: seq<Prefix>, name: string): Option<Prefix> {
    if ps == [] then None else if Matches(ps[0], name) then Some(ps[0]) else Chosen(ps[1..], name)
  }

  lemma {:induction false} ChosenFirst(ps: seq<Prefix>, name: string)
    requires Sorted(ps) && exists i :: 0 <= i < |ps| && Matches(ps[i], name)
    ensures var c := Chosen(ps, name);
            && c.Some? && c.value in ps && Matches(c.value, name)
            && forall p :: p in ps && Matches(p, name) ==> |p.prefix| <= |c.value.prefix|
  {
    if !Matches(ps[0], name) {
      var i :| 0 <= i < |ps| && Matches(ps[i], name);
      assert ps[1..][i - 1] == ps[i];
      ChosenFirst(ps[1..], name);
      assert ps == [ps[0]] + ps[1..];
    } else {
      forall p | p in ps ensures |p.prefix| <= |ps[0].prefix| {
        var j :| 0 <= j < |ps| && ps[j] == p;
        assert j == 0 || |ps[0].prefix| >= |ps[j].prefix|;
      }
    }
  }

  /** Every name has a prefix, and the one chosen is the longest that fits; no other
      configured prefix of the name is as long. */
  lemma {:induction false} LongestPrefix(ps: seq<Prefix>, name: string)
    requires Table(ps)
    ensures Chosen(ps, name).Some?
    ensures var c := Chosen(ps, name).value;
            && c in ps && c.prefix <= name
            && forall p :: p in ps && p.prefix <= name && p != c ==> |p.prefix| < |c.prefix|
  {
    var i :| 0 <= i < |ps| && ps[i].prefix == [];
    assert Matches(ps[i], name);
    ChosenFirst(ps, name);
    var c := Chosen(ps, name).value;
    forall p | p in ps && p.prefix <= name && p != c ensures |p.prefix| < |c.prefix| {
      assert Matches(p, name);
      SameLength(ps, p, c, name);
    }
  }

  lemma SameLength(ps: seq<Prefix>, p: Prefix, q: Prefix, name: string)
    requires Distinct(ps) && p in ps && q in ps && p.prefix <= name && q.prefix <= name
    ensures |p.prefix| == |q.prefix| ==> p == q
  {
    var j :| 0 <= j < |ps| && ps[j] == p;
    var k :| 0 <= k < |ps| && ps[k] == q;
    assert |p.prefix| == |q.prefix| ==> p.prefix == name[..|p.prefix|] && q.prefix == name[..|p.prefix|];
  }

  // ---------- the path of a name ----------

  function Translated(s: string, to: char, from: char): (r: string)
    ensures |r| == |s|
  {
    seq(|s|, i requires 0 <= i < |s| => if s[i] == from then to else s[i])
  }

  /** The part of a name behind the user name, in the namespace of other users. */
  function BehindUser(s: string, delim: char): (r: string)
    ensures |r| <= |s|
  {
    if s == [] || s[0] == delim then s else BehindUser(s[1..], delim)
  }

  function Rest(p: Prefix, name: string): string
    requires Matches(p, name)
  {
    name[|p.prefix|..]
  }

  /** What is copied behind the directory. */
  function Tail(p: Prefix, rest: string): string {
    if rest == [] then []
    else if p.ns == Other then
      var skip := p.prefix != [] && p.prefix[|p.prefix| - 1] == p.delim;
      Translated(BehindUser(if skip then rest[1..] else rest, p.delim), '/', p.delim)
    else (if rest[0] != p.delim then ['/'] else []) + Translated(rest, '/', p.delim)
  }

  /** The path, before its variables are expanded.  INBOX is the user's spool file. */
  function PathOf(p: Prefix, name: string, inbox: string): Option<string> {
    if !Matches(p, name) then None
    else if p.ns == Personal && p.prefix == [] && EqNoCase(name, "INBOX") then Some(inbox)
    else Some(p.dir + Tail(p, Rest(p, name)))
  }

  /** translate_delim: copies a C string with its NUL */
  method TranslateDelim(dst: array<char>, at: nat, src: string, dst_delim: char, src_delim: char)
    requires at + |src| < dst.Length && src_delim != NUL
    modifies dst
    ensures forall k :: 0 <= k < at ==> dst[k] == old(dst[k])
    ensures dst[at..at + |src|] == Translated(src, dst_delim, src_delim) && dst[at + |src|] == NUL
  {
    var i := 0;
    var more := true;
    while more
      invariant i <= |src| + 1 && (more ==> i <= |src|) && (!more ==> i == |src| + 1)
      invariant forall k :: 0 <= k < at ==> dst[k] == old(dst[k])
      invariant forall k :: 0 <= k < i && k < |src| ==> dst[at + k] == Translated(src, dst_delim, src_delim)[k]
      invariant i == |src| + 1 ==> dst[at + |src|] == NUL
      decreases |src| + 1 - i
    {
      var c := if i < |src| then src[i] else NUL;
      dst[at + i] := if c == src_delim then dst_delim else c;
      more := i < |src|;
      i := i + 1;
    }
    assert dst[at..at + |src|] == Translated(src, dst_delim, src_delim);
  }

  /** prefix_translate_name */
  method PrefixTranslateName(p: Prefix, name: string, inbox: string) returns (path: Option<string>)
    requires p.delim != NUL
    ensures path == PathOf(p, name, inbox)
  {
    hide Translated;
    var pfxlen := |p.prefix|;
    if !(pfxlen <= |name| && p.prefix == name[..pfxlen]) {
      return None;
    }
    var rest := name[pfxlen..];
    if p.ns == Personal && pfxlen == 0 && EqNoCase(rest, "INBOX") {
      return Some(inbox);
    }
    var filled := FillTemplate(p, rest);
    path := Some(filled);
  }

  /** The directory, with a slash where one is needed, and what is left of the name. */
  method PlaceHead(tmpl: array<char>, p: Prefix, name: string) returns (at: nat, rest: string)
    requires name != [] && tmpl.Length == |name| + |p.dir| + 2
    modifies tmpl
    ensures at + |rest| + 1 <= tmpl.Length
    ensures tmpl[..at] + Translated(rest, '/', p.delim) == p.dir + Tail(p, name)
  {
    hide Translated;
    at, rest := |p.dir|, name;
    forall i | 0 <= i < at {
      tmpl[i] := p.dir[i];
    }
    assert tmpl[..at] == p.dir;
    if p.ns == Other {
      if p.prefix != [] && p.prefix[|p.prefix| - 1] == p.delim {
        rest := rest[1..];
      }
      rest := SkipUser(rest, p.delim);
    } else if rest[0] != p.delim {
      tmpl[at] := '/';
      assert tmpl[..at + 1] == p.dir + ['/'];
      at := at + 1;
      assert p.dir + ['/'] + Translated(rest, '/', p.delim) == p.dir + (['/'] + Translated(rest, '/', p.delim));
    } else {
      assert Tail(p, name) == Translated(rest, '/', p.delim);
    }
  }

  /** The path, written into a buffer of the size that the source computes. */
  method FillTemplate(p: Prefix, name: string) returns (path: string)
    requires p.delim != NUL
    ensures path == p.dir + Tail(p, name)
  {
    hide Translated, Tail;
    if name == [] {
      NoTail(p);
      return p.dir;
    }
    var tmpl := new char[|name| + |p.dir| + 2];
    var at, rest := PlaceHead(tmpl, p, name);
    ghost var head := tmpl[..at];
    TranslateDelim(tmpl, at, rest, '/', p.delim);
    assert tmpl[..at] == head;
    var len := at + |rest|;
    assert tmpl[..len] == tmpl[..at] + tmpl[at..len];
    path := tmpl[..len];
  }

  lemma NoTail(p: Prefix)
    ensures p.dir + Tail(p, []) == p.dir
  {
  }

  method SkipUser(s: string, delim: char) returns (r: string)
    ensures r == BehindUser(s, delim)
  {
    var i := 0;
    while i < |s| && s[i] != delim
      invariant i <= |s| && BehindUser(s, delim) == BehindUser(s[i..], delim)
    {
      i := i + 1;
    }
    r := s[i..];
  }

  /** translate_name: the first prefix in the table that translates the name */
  method TranslateName(ps: seq<Prefix>, name: string, inbox: string) returns (path: Option<string>, pfx: Option<Prefix>)
    requires forall i :: 0 <= i < |ps| ==> ps[i].delim != NUL
    ensures pfx == Chosen(ps, name)
    ensures path == if pfx.Some? then PathOf(pfx.value, name, inbox) else None
  {
    for i := 0 to |ps|
      invariant Chosen(ps, name) == Chosen(ps[i..], name)
    {
      path := PrefixTranslateName(ps[i], name, inbox);
      if path.Some? {
        return path, Some(ps[i]);
      }
      assert ps[i..][1..] == ps[i + 1..];
    }
    return None, None;
  }

  // ---------- no two names share a path ----------

  /** A name without slashes of its own.  When the delimiter is the slash, any name. */
  predicate SlashFree(delim: char, rest: string) {
    delim == '/' || '/' !in rest
  }

  lemma TranslatedInjective(a: string, b: string, delim: char)
    requires SlashFree(delim, a) && SlashFree(delim, b)
    ensures Translated(a, '/', delim) == Translated(b, '/', delim) <==> a == b
  {
    var ta, tb := Translated(a, '/', delim), Translated(b, '/', delim);
    if ta == tb {
      forall i | 0 <= i < |a| ensures a[i] == b[i] {
        assert ta[i] == tb[i];
        assert a[i] in a && b[i] in b;
      }
    }
  }

  lemma TailShape(p: Prefix, rest: string)
    requires p.ns != Other && rest != [] && SlashFree(p.delim, rest)
    ensures var t := Tail(p, rest);
            t == Translated(if rest[0] == p.delim then rest else [p.delim] + rest, '/', p.delim)
  {
  }

  lemma SlashFreeCons(delim: char, rest: string)
    requires SlashFree(delim, rest)
    ensures SlashFree(delim, [delim] + rest)
  {
    assert forall c :: c in [delim] + rest ==> c == delim || c in rest;
  }

  /** A name and the same name behind the delimiter. */
  predicate Variant(delim: char, a: string, b: string) {
    a != [] && a[0] != delim && b == [delim] + a
  }

  /** Exactly when two names under one personal or shared prefix share a path. */
  lemma SamePath(p: Prefix, a: string, b: string)
    requires p.ns != Other && SlashFree(p.delim, a) && SlashFree(p.delim, b)
    ensures p.dir + Tail(p, a) == p.dir + Tail(p, b)
       <==> a == b || Variant(p.delim, a, b) || Variant(p.delim, b, a)
  {
    hide Translated, SlashFree, Tail;
    SameTail(p.dir, Tail(p, a), Tail(p, b));
    EmptyTail(p, a);
    EmptyTail(p, b);
    if a != [] && b != [] {
      var fullA := if a[0] == p.delim then a else [p.delim] + a;
      var fullB := if b[0] == p.delim then b else [p.delim] + b;
      TailShape(p, a);
      TailShape(p, b);
      SlashFreeCons(p.delim, a);
      SlashFreeCons(p.delim, b);
      TranslatedInjective(fullA, fullB, p.delim);
      assert a == ([p.delim] + a)[1..] && b == ([p.delim] + b)[1..];
    }
  }

  lemma SameTail(dir: string, a: string, b: string)
    ensures dir + a == dir + b <==> a == b
  {
    assert (dir + a)[|dir|..] == a && (dir + b)[|dir|..] == b;
  }

  lemma EmptyTail(p: Prefix, a: string)
    requires p.ns != Other
    ensures Tail(p, a) == [] <==> a == []
  {
  }

  // ---------- the finished path ----------

  /** The user of the session; the home directories of all users that exist; and what
      the library makes of the forms that are not opened here. */
  datatype User = User(name: string, home: string, inbox: string, homes: string -> Option<string>, lib: Env)

  function OwnVariable(u: User, v: string): Option<string> {
    if v == "user" then Some(u.name) else if v == "home" then Some(u.home) else None
  }

  /** The text before the first delimiter. */
  function UpTo(s: string, delim: char): (r: string)
    ensures r <= s
  {
    if s == [] || s[0] == delim then [] else [s[0]] + UpTo(s[1..], delim)
  }

  /** Who a name in the namespace of other users belongs to; without a name it is the
      user of the session. */
  function Owner(u: User, p: Prefix, name: string): string {
    var user := if |p.prefix| <= |name| then UpTo(name[|p.prefix|..], p.delim) else [];
    if user == [] then u.name else user
  }

  /** extract_username */
  method ExtractUsername(u: User, p: Prefix, name: string) returns (user: string)
    requires |p.prefix| <= |name|
    ensures user == Owner(u, p, name)
  {
    hide UpTo;
    var rest := name[|p.prefix|..];
    var end := FindDelim(rest, p.delim);
    user := if end == 0 then u.name else rest[..end];
  }

  /** strchr, or the end of the string */
  method FindDelim(s: string, delim: char) returns (end: nat)
    ensures end == |UpTo(s, delim)|
  {
    end := 0;
    while end < |s| && s[end] != delim
      invariant end <= |s| && |UpTo(s, delim)| == end + |UpTo(s[end..], delim)|
    {
      assert s[end..][1..] == s[end + 1..];
      end := end + 1;
    }
  }

  function OwnerVariable(u: User, owner: string, v: string): Option<string> {
    if v == "user" then Some(owner) else if v == "home" then u.homes(owner) else None
  }

  /** What a path is expanded with. */
  function EnvOf(u: User, p: Prefix, name: string): Env {
    match p.ns
    case Personal => u.lib.(vars := v => OwnVariable(u, v))
    case Other =>
      var owner := Owner(u, p, name);
      u.lib.(vars := v => OwnerVariable(u, owner, v))
    case Shared => u.lib.(vars := _ => None)
  }

  /** The path that namespace_translate_name gives: expanded, and without the slashes at
      its end.  None when the expansion fails, which ends the session. */
  function FinalPath(u: User, p: Prefix, name: string): Option<string> {
    match PathOf(p, name, u.inbox)
    case None => None
    case Some(path) =>
      match Expand(EnvOf(u, p, name), path)
      case None => None
      case Some(x) => Some(Trimmed(x))
  }

  /** namespace_translate_name */
  method NamespaceTranslateName(ps: seq<Prefix>, name: string, u: User) returns (path: Option<string>, pfx: Prefix)
    requires Table(ps) && forall i :: 0 <= i < |ps| ==> ps[i].delim != NUL
    ensures Chosen(ps, name) == Some(pfx) && path == FinalPath(u, pfx, name)
  {
    hide Table, Chosen, PathOf, Trimmed, VarExpand, HasCommand, EnvOf;
    LongestPrefix(ps, name);
    var res, found := TranslateName(ps, name, u.inbox);
    pfx := found.value;
    PathFound(pfx, name, u.inbox);
    var e := EnvOf(u, pfx, name);
    var x;
    if HasCommand(res.value) {
      x := e.commands(res.value);
    } else {
      x := NodeExpand(e, res.value);
    }
    if x.None? {
      return None, pfx;
    }
    var trimmed := TrimDelim(x.value);
    path := Some(trimmed);
  }

  lemma PathFound(p: Prefix, name: string, inbox: string)
    requires p.prefix <= name
    ensures PathOf(p, name, inbox).Some?
  {
  }

  /** A name without the delimiters at its end. */
  function Strip(s: string, delim: char): (r: string)
    ensures r <= s && (r != [] ==> r[|r| - 1] != delim)
  {
    if s != [] && s[|s| - 1] == delim then Strip(s[..|s| - 1], delim) else s
  }

  /** A name as it is put behind the directory: with a delimiter in front. */
  function Full(delim: char, rest: string): string {
    if rest == [] || rest[0] == delim then rest else [delim] + rest
  }

  lemma {:induction false} TrimmedAppend(x: string, t: string)
    ensures Trimmed(x + t) == if Trimmed(t) == [] then Trimmed(x) else x + Trimmed(t)
  {
    if t == [] {
      assert x + t == x;
    } else {
      assert (x + t)[..|x + t| - 1] == x + t[..|t| - 1];
      TrimmedAppend(x, t[..|t| - 1]);
    }
  }

  lemma {:induction false} TrimmedTranslated(s: string, delim: char)
    requires SlashFree(delim, s)
    ensures Trimmed(Translated(s, '/', delim)) == Translated(Strip(s, delim), '/', delim)
    ensures SlashFree(delim, Strip(s, delim))
  {
    hide Translated, SlashFree;
    if s == [] {
      TranslatedLength(s, '/', delim);
    } else {
      TranslatedLast(s, delim);
      TrimmedTranslated(s[..|s| - 1], delim);
    }
  }

  lemma TranslatedLast(s: string, delim: char)
    requires s != [] && SlashFree(delim, s)
    ensures var t, n := Translated(s, '/', delim), |s| - 1;
            && |t| == |s| && t[..n] == Translated(s[..n], '/', delim)
            && (t[n] == '/' <==> s[n] == delim) && SlashFree(delim, s[..n])
  {
    var u := s[..|s| - 1];
    assert s[|s| - 1] in s && forall c :: c in u ==> c in s;
  }

  /** What the finished path is made of, whatever the directory was expanded to. */
  lemma TrimmedPath(dir: string, p: Prefix, rest: string)
    requires p.ns != Other && SlashFree(p.delim, rest)
    ensures var core := Strip(Full(p.delim, rest), p.delim);
            && SlashFree(p.delim, core)
            && Trimmed(dir + Tail(p, rest))
               == if core == [] then Trimmed(dir) else dir + Translated(core, '/', p.delim)
  {
    hide Trimmed, Strip, Translated, SlashFree, Tail;
    var full := Full(p.delim, rest);
    SlashFreeCons(p.delim, rest);
    TrimmedAppend(dir, Tail(p, rest));
    TrimmedTranslated(full, p.delim);
    TranslatedLength(Strip(full, p.delim), '/', p.delim);
    if rest == [] {
      EmptyTail(p, rest);
      assert dir + [] == dir;
      TranslatedLength(full, '/', p.delim);
    } else {
      TailShape(p, rest);
    }
  }

  lemma TranslatedLength(s: string, to: char, from: char)
    ensures |Translated(s, to, from)| == |s|
  {
  }

  /** Behind one directory. */
  lemma SameTrimmed(dir: string, p: Prefix, a: string, b: string)
    requires p.ns != Other && SlashFree(p.delim, a) && SlashFree(p.delim, b)
    ensures Trimmed(dir + Tail(p, a)) == Trimmed(dir + Tail(p, b))
       <==> Strip(Full(p.delim, a), p.delim) == Strip(Full(p.delim, b), p.delim)
  {
    hide Strip, Translated, SlashFree, Tail, Full;
    var x, y := Strip(Full(p.delim, a), p.delim), Strip(Full(p.delim, b), p.delim);
    TrimmedPath(dir, p, a);
    TrimmedPath(dir, p, b);
    TranslatedInjective(x, y, p.delim);
    TranslatedLength(x, '/', p.delim);
    TranslatedLength(y, '/', p.delim);
    SameTail(dir, Translated(x, '/', p.delim), Translated(y, '/', p.delim));
    assert |Trimmed(dir)| <= |dir|;
  }

  lemma {:induction false} StripCons(delim: char, s: string)
    requires s != [] && s[0] != delim
    ensures Strip([delim] + s, delim) == [delim] + Strip(s, delim) && Strip(s, delim) != []
  {
    var t := [delim] + s;
    if s[|s| - 1] == delim {
      assert t[..|t| - 1] == [delim] + s[..|s| - 1];
      StripCons(delim, s[..|s| - 1]);
    }
  }

  // ---------- variables in the path ----------

  /** A personal or shared prefix whose directory holds no more than variables, and a
      name of it that is not INBOX. */
  predicate Ordinary(p: Prefix, name: string) {
    p.ns != Other && Simple(p.dir) && Matches(p, name) && !EqNoCase(name, "INBOX")
  }

  /** The name is put behind the directory from a slash on, and holds a dollar sign only
      if the client's name does. */
  lemma TailLetters(p: Prefix, rest: string)
    requires p.ns != Other
    ensures Slashed(Tail(p, rest)) && ('$' !in rest ==> '$' !in Tail(p, rest))
  {
    var t := Tail(p, rest);
    forall i | 0 <= i < |t| ensures t[i] == '/' || t[i] in rest {
    }
  }

  /** The directory is expanded by itself, whatever the name. */
  lemma ExpandedPath(e: Env, p: Prefix, rest: string)
    requires p.ns != Other && Simple(p.dir)
    ensures VarExpand(e, p.dir).Some?
    ensures var t := Tail(p, rest);
            && (!HasCommand(t) ==> Expand(e, p.dir + t) == Before(VarExpand(e, p.dir).value, VarExpand(e, t)))
            && ('$' !in rest ==> !HasCommand(t) && VarExpand(e, t) == Some(t))
  {
    hide Simple, VarExpand, HasCommand, Tail;
    var t := Tail(p, rest);
    TailLetters(p, rest);
    SimpleExpand(e, p.dir, t);
    if '$' !in rest {
      NoDollar(e, t);
    }
  }

  lemma FinalShape(u: User, p: Prefix, name: string)
    requires Ordinary(p, name)
    ensures var e := EnvOf(u, p, name); var t := Tail(p, Rest(p, name));
            && VarExpand(e, p.dir).Some?
            && (!HasCommand(t) && VarExpand(e, t).Some? ==>
                  FinalPath(u, p, name) == Some(Trimmed(VarExpand(e, p.dir).value + VarExpand(e, t).value)))
            && ('$' !in Rest(p, name) ==> !HasCommand(t) && VarExpand(e, t) == Some(t))
  {
    hide Simple, VarExpand, HasCommand, Tail, Expand, EqNoCase, EnvOf;
    ExpandedPath(EnvOf(u, p, name), p, Rest(p, name));
  }

  lemma SameEnv(u: User, p: Prefix, a: string, b: string)
    requires p.ns != Other
    ensures EnvOf(u, p, a) == EnvOf(u, p, b)
  {
  }

  /** Names without commands, with whatever variables, share a path if and only if what
      they are expanded to is equal up to slashes at the end. */
  lemma SameExpanded(u: User, p: Prefix, a: string, b: string)
    requires Ordinary(p, a) && Ordinary(p, b)
    requires !HasCommand(Tail(p, Rest(p, a))) && VarExpand(EnvOf(u, p, a), Tail(p, Rest(p, a))).Some?
    requires !HasCommand(Tail(p, Rest(p, b))) && VarExpand(EnvOf(u, p, b), Tail(p, Rest(p, b))).Some?
    ensures FinalPath(u, p, a) == FinalPath(u, p, b)
       <==> Trimmed(VarExpand(EnvOf(u, p, a), Tail(p, Rest(p, a))).value)
            == Trimmed(VarExpand(EnvOf(u, p, b), Tail(p, Rest(p, b))).value)
  {
    hide Simple, VarExpand, HasCommand, Tail, EnvOf, FinalPath, EqNoCase, Trimmed;
    FinalShape(u, p, a);
    FinalShape(u, p, b);
    SameEnv(u, p, a, b);
    var e := EnvOf(u, p, a);
    var dir := VarExpand(e, p.dir).value;
    var x, y := VarExpand(e, Tail(p, Rest(p, a))).value, VarExpand(e, Tail(p, Rest(p, b))).value;
    TrimmedAppend(dir, x);
    TrimmedAppend(dir, y);
    SameTail(dir, Trimmed(x), Trimmed(y));
    assert |Trimmed(dir)| <= |dir|;
  }

  // ---------- no two names share a finished path ----------

  /** Exactly when two names without slashes and dollar signs share the path that the
      server uses: when they agree up to a delimiter in front and delimiters at the end. */
  lemma SameFinalPath(u: User, p: Prefix, a: string, b: string)
    requires Ordinary(p, a) && Ordinary(p, b)
    requires SlashFree(p.delim, Rest(p, a)) && SlashFree(p.delim, Rest(p, b))
    requires '$' !in Rest(p, a) && '$' !in Rest(p, b)
    ensures FinalPath(u, p, a) == FinalPath(u, p, b)
       <==> Strip(Full(p.delim, Rest(p, a)), p.delim) == Strip(Full(p.delim, Rest(p, b)), p.delim)
  {
    hide Simple, VarExpand, HasCommand, Tail, EnvOf, FinalPath, Strip, Full, Trimmed;
    FinalShape(u, p, a);
    FinalShape(u, p, b);
    SameEnv(u, p, a, b);
    SameTrimmed(VarExpand(EnvOf(u, p, a), p.dir).value, p, Rest(p, a), Rest(p, b));
  }

  /** Under one personal or shared prefix, names that contain no slash and no dollar sign
      and do not begin with the delimiter share the path that the server uses if and only
      if they are equal up to delimiters at the end, INBOX aside. */
  lemma NoCollision(u: User, p: Prefix, a: string, b: string)
    requires Ordinary(p, a) && Ordinary(p, b)
    requires SlashFree(p.delim, Rest(p, a)) && SlashFree(p.delim, Rest(p, b))
    requires '$' !in Rest(p, a) && '$' !in Rest(p, b)
    requires Rest(p, a) != [] && Rest(p, a)[0] != p.delim
    requires Rest(p, b) != [] && Rest(p, b)[0] != p.delim
    ensures FinalPath(u, p, a) == FinalPath(u, p, b) <==> Strip(Rest(p, a), p.delim) == Strip(Rest(p, b), p.delim)
  {
    hide FinalPath, Strip, Simple, EqNoCase;
    var x, y := Rest(p, a), Rest(p, b);
    SameFinalPath(u, p, a, b);
    StripCons(p.delim, x);
    StripCons(p.delim, y);
    assert ([p.delim] + Strip(x, p.delim))[1..] == Strip(x, p.delim);
    assert ([p.delim] + Strip(y, p.delim))[1..] == Strip(y, p.delim);
  }

  /** So names that do not end in the delimiter either share it only if they are equal. */
  lemma PlainNamesDiffer(u: User, p: Prefix, a: string, b: string)
    requires Ordinary(p, a) && Ordinary(p, b)
    requires SlashFree(p.delim, Rest(p, a)) && SlashFree(p.delim, Rest(p, b))
    requires '$' !in Rest(p, a) && '$' !in Rest(p, b)
    requires forall x :: x == Rest(p, a) || x == Rest(p, b) ==> x != [] && x[0] != p.delim && x[|x| - 1] != p.delim
    ensures FinalPath(u, p, a) == FinalPath(u, p, b) <==> a == b
  {
    hide FinalPath, Simple, EqNoCase;
    NoCollision(u, p, a, b);
    assert a == p.prefix + Rest(p, a) && b == p.prefix + Rest(p, b);
  }

  /** The prefix that is there without any configuration is one of those meant. */
  lemma DefaultPrefix(name: string)
    requires !EqNoCase(name, "INBOX")
    ensures Ordinary(HOME, name)
  {
    assert NameSpan("home"[1..][1..][1..][1..]) == 0 && NameSpan("home"[1..][1..]) == 2;
    assert ReferenceOf("home") == Variable("home"[..4], 4) && "$home"[1..] == "home" && "$home"[5..] == "";
  }

  const GRAY: Prefix := Prefix("", "/home/gray", '.', Personal)

  /** Names that share a path: a delimiter at the end is trimmed, and a variable that is
      not defined is empty. */
  lemma SharedPath(u: User)
    ensures FinalPath(u, GRAY, "lists") == Some("/home/gray/lists")
    ensures FinalPath(u, GRAY, "lists.") == Some("/home/gray/lists")
    ensures FinalPath(u, GRAY, "lists$x") == Some("/home/gray/lists")
  {
    hide EnvOf, FinalPath, Strip;
    SampleName("lists");
    SampleName("lists.");
    assert "lists."[..5] == "lists";
    Stripped();
    NoCollision(u, GRAY, "lists", "lists.");
    SamplePath(u, "lists", "");
    SamplePath(u, "lists$x", "$x");
  }

  lemma Stripped()
    ensures Strip("lists", '.') == Strip("lists.", '.')
  {
    assert "lists."[..5] == "lists";
  }

  lemma SampleName(name: string)
    requires name == "lists" || name == "lists." || name == "lists$x"
    ensures Ordinary(GRAY, name) && Rest(GRAY, name) == name && SlashFree(GRAY.delim, name)
    ensures name != "lists$x" ==> '$' !in name
  {
    hide Simple;
    GraySimple();
    assert Fold(name)[0] == 'L' && Fold("INBOX")[0] == 'I';
  }

  lemma GraySimple()
    ensures Simple(GRAY.dir)
  {
    NoDollarSimple(GRAY.dir);
  }

  lemma SamplePath(u: User, name: string, more: string)
    requires name == "lists" + more && (more == "" || more == "$x")
    ensures FinalPath(u, GRAY, name) == Some("/home/gray/lists")
  {
    hide EqNoCase, EnvOf, Expand, Simple;
    SampleName(name);
    assert PathOf(GRAY, name, u.inbox) == Some("/home/gray/lists" + more) by { SampleTail(name, more); }
    SampleEnv(u, name);
    SampleExpanded(EnvOf(u, GRAY, name), more);
    NoSlashAtEnd();
  }

  lemma SampleEnv(u: User, name: string)
    ensures EnvOf(u, GRAY, name).vars("x").None?
  {
  }

  lemma SampleExpanded(e: Env, more: string)
    requires more == "" || (more == "$x" && e.vars("x").None?)
    ensures Expand(e, "/home/gray/lists" + more) == Some("/home/gray/lists")
  {
    hide VarExpand, HasCommand;
    PlainBefore(e, "/home/gray/lists", more);
    Undefined(e, more);
    assert "/home/gray/lists" + [] == "/home/gray/lists";
  }

  lemma SampleTail(name: string, more: string)
    requires name == "lists" + more && (more == "" || more == "$x")
    ensures GRAY.dir + Tail(GRAY, name) == "/home/gray/lists" + more
  {
    assert Translated(name, '/', '.') == name;
    assert Tail(GRAY, name) == "/lists" + more;
    assert "/home/gray" + ("/lists" + more) == "/home/gray/lists" + more;
  }

  lemma NoSlashAtEnd()
    ensures Trimmed("/home/gray/lists") == "/home/gray/lists"
  {
  }

  lemma Undefined(e: Env, more: string)
    requires more == "" || (more == "$x" && e.vars("x").None?)
    ensures VarExpand(e, more) == Some([]) && !HasCommand(more)
  {
    if more == "$x" {
      assert NameSpan("x"[1..]) == 0 && NameSpan("x") == 1 && "x"[..1] == "x";
      assert ReferenceOf("x") == Variable("x", 1);
      assert more[1..] == "x" && more[2..] == "";
      ExpandStep(e, more);
      CommandHead(more);
      CommandHead(more[1..]);
      assert more[1..][1..] == "";
      assert [] + "" == "";
    }
    NothingSimple(e);
  }

  // ---------- encoding and decoding of delimiters ----------

  /** namespace_encode_delim and namespace_decode_delim */
  function Encoded(p: Prefix, s: string): string {
    Translated(s, p.delim, '/')
  }

  function Decoded(p: Prefix, s: string): string {
    Translated(s, '/', p.delim)
  }

  /** Each undoes the other exactly where the character it would confuse is absent. */
  lemma DelimRoundTrip(p: Prefix, s: string)
    ensures Decoded(p, Encoded(p, s)) == s <==> p.delim == '/' || p.delim !in s
    ensures Encoded(p, Decoded(p, s)) == s <==> p.delim == '/' || '/' !in s
  {
    var d, e := Decoded(p, Encoded(p, s)), Encoded(p, Decoded(p, s));
    if d == s && p.delim in s {
      var i :| 0 <= i < |s| && s[i] == p.delim;
      assert d[i] == '/';
    }
    if e == s && '/' in s {
      var i :| 0 <= i < |s| && s[i] == '/';
      assert e[i] == p.delim;
    }
  }
}
