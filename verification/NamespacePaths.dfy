/** What the finished paths are: that of INBOX and who shares it, those in the home
    directory, and those in the namespace of other users. */
module NamespacePaths {
  import opened Common
  import opened PathVariables
  import opened Namespace

  // ---------- INBOX ----------

  predicate IsInbox(name: string) {
    EqNoCase(name, "INBOX")
  }

  /** The prefix chosen for a name that no other prefix fits. */
  lemma OnlyEmpty(ps: seq<Prefix>, name: string)
    requires Table(ps) && forall p :: p in ps && p.prefix <= name ==> p.prefix == []
    ensures Chosen(ps, name).Some? && Chosen(ps, name).value in ps && Chosen(ps, name).value.prefix == []
  {
    hide Table, Chosen;
    LongestPrefix(ps, name);
  }

  /** In the personal namespace without a prefix, INBOX in any spelling is the spool file
      of the user and nothing below the directory: its name is expanded like any path,
      and stays as it is without dollar signs. */
  lemma InboxPath(u: User, p: Prefix, name: string)
    requires p.ns == Personal && p.prefix == [] && IsInbox(name)
    ensures var x := Expand(EnvOf(u, p, name), u.inbox);
            FinalPath(u, p, name) == if x.Some? then Some(Trimmed(x.value)) else None
    ensures '$' !in u.inbox ==> FinalPath(u, p, name) == Some(Trimmed(u.inbox))
  {
    hide Expand, EnvOf, Trimmed, EqNoCase;
    if '$' !in u.inbox {
      NoDollar(EnvOf(u, p, name), u.inbox);
    }
  }

  /** So it is for any table whose longest prefix of the name is the empty one. */
  lemma InboxChosen(ps: seq<Prefix>, u: User, name: string)
    requires Table(ps) && IsInbox(name)
    requires forall p :: p in ps && p.prefix <= name ==> p.prefix == [] && p.ns == Personal
    requires '$' !in u.inbox
    ensures Chosen(ps, name).Some? && FinalPath(u, Chosen(ps, name).value, name) == Some(Trimmed(u.inbox))
  {
    hide Table, Chosen, FinalPath, IsInbox;
    OnlyEmpty(ps, name);
    InboxPath(u, Chosen(ps, name).value, name);
  }

  /** What an ordinary name is behind its directory: nothing, or begun with a delimiter and
      ended without one. */
  function Core(q: Prefix, name: string): string
    requires Matches(q, name)
  {
    Strip(Full(q.delim, Rest(q, name)), q.delim)
  }

  /** The path of an ordinary name without slashes and dollar signs. */
  lemma OrdinaryPath(u: User, q: Prefix, name: string)
    requires Ordinary(q, name) && SlashFree(q.delim, Rest(q, name)) && '$' !in Rest(q, name)
    ensures VarExpand(EnvOf(u, q, name), q.dir).Some?
    ensures var dir := VarExpand(EnvOf(u, q, name), q.dir).value;
            FinalPath(u, q, name)
            == Some(if Core(q, name) == [] then Trimmed(dir) else dir + Translated(Core(q, name), '/', q.delim))
  {
    hide Simple, VarExpand, HasCommand, Tail, EnvOf, FinalPath, Strip, Full, Trimmed, EqNoCase, Translated, SlashFree;
    FinalShape(u, q, name);
    TrimmedPath(VarExpand(EnvOf(u, q, name), q.dir).value, q, Rest(q, name));
  }

  /** An ordinary name shares the path of INBOX if and only if the spool file is what the
      name says below the directory of its own prefix. */
  lemma InboxShared(u: User, p: Prefix, inbox: string, q: Prefix, name: string)
    requires p.ns == Personal && p.prefix == [] && IsInbox(inbox) && '$' !in u.inbox
    requires Ordinary(q, name) && SlashFree(q.delim, Rest(q, name)) && '$' !in Rest(q, name)
    ensures VarExpand(EnvOf(u, q, name), q.dir).Some?
    ensures var dir := VarExpand(EnvOf(u, q, name), q.dir).value;
            FinalPath(u, q, name) == FinalPath(u, p, inbox) <==>
              if Core(q, name) == [] then Trimmed(dir) == Trimmed(u.inbox)
              else dir + Translated(Core(q, name), '/', q.delim) == Trimmed(u.inbox)
  {
    hide FinalPath, Simple, VarExpand, EnvOf, Core, IsInbox, SlashFree, Ordinary, Translated, Trimmed;
    InboxPath(u, p, inbox);
    OrdinaryPath(u, q, name);
  }

  /** Where the spool file does not lie in the directory of a prefix, no name of that
      prefix is mixed up with INBOX. */
  lemma InboxApart(u: User, p: Prefix, inbox: string, q: Prefix, name: string)
    requires p.ns == Personal && p.prefix == [] && IsInbox(inbox) && '$' !in u.inbox
    requires Ordinary(q, name) && SlashFree(q.delim, Rest(q, name)) && '$' !in Rest(q, name)
    requires VarExpand(EnvOf(u, q, name), q.dir).Some?
    requires !(Trimmed(VarExpand(EnvOf(u, q, name), q.dir).value) <= Trimmed(u.inbox))
    ensures FinalPath(u, q, name) != FinalPath(u, p, inbox)
  {
    hide FinalPath, Simple, VarExpand, EnvOf, Core, IsInbox, SlashFree, EqNoCase, Translated;
    InboxShared(u, p, inbox, q, name);
    var dir := VarExpand(EnvOf(u, q, name), q.dir).value;
    PrefixOfSum(Trimmed(dir), dir, Translated(Core(q, name), '/', q.delim));
  }

  lemma PrefixOfSum(a: string, b: string, c: string)
    requires a <= b
    ensures a <= b + c
  {
  }

  /** The spool file of gray, and a name that shares it when it lies in the home directory. */
  lemma GrayInbox(u: User)
    ensures u.inbox == "/var/mail/gray" ==> FinalPath(u, GRAY, "inbox") == Some("/var/mail/gray")
    ensures u.inbox == "/home/gray/lists" ==> FinalPath(u, GRAY, "Inbox") == FinalPath(u, GRAY, "lists")
  {
    hide FinalPath, IsInbox;
    InboxSpellings();
    GraySpools();
    SharedPath(u);
    if '$' !in u.inbox {
      InboxPath(u, GRAY, "inbox");
      InboxPath(u, GRAY, "Inbox");
    }
  }

  lemma InboxSpellings()
    ensures IsInbox("inbox") && IsInbox("Inbox")
  {
    assert Fold("inbox") == Fold("INBOX") && Fold("Inbox") == Fold("INBOX");
  }

  lemma GraySpools()
    ensures '$' !in "/var/mail/gray" && Trimmed("/var/mail/gray") == "/var/mail/gray"
    ensures '$' !in "/home/gray/lists" && Trimmed("/home/gray/lists") == "/home/gray/lists"
  {
  }

  // ---------- home directories ----------

  /** The variables of a path: the user of the session and their home directory in the
      personal namespace, none in the shared one. */
  lemma OwnVariables(u: User, p: Prefix, name: string)
    ensures p.ns == Personal ==> EnvOf(u, p, name).vars("user") == Some(u.name)
    ensures p.ns == Personal ==> EnvOf(u, p, name).vars("home") == Some(u.home)
    ensures p.ns == Shared ==> forall v :: EnvOf(u, p, name).vars(v) == None
  {
    assert "home"[0] == 'h' && "user"[0] == 'u';
  }

  lemma HomeValue(e: Env)
    ensures VarExpand(e, "$home") == Some(ValueOf(e, "home"))
  {
    Substituted(e, "home", "");
    assert "$" + "home" + "" == "$home" && ValueOf(e, "home") + [] == ValueOf(e, "home");
  }

  /** Without a configured namespace, a name is a path in the home directory of the user. */
  lemma HomePath(u: User, name: string)
    requires !IsInbox(name) && '$' !in name
    ensures FinalPath(u, HOME, name)
         == Some(Trimmed(u.home + (if name == [] || name[0] == '/' then name else "/" + name)))
  {
    hide FinalPath, EqNoCase, VarExpand, Simple, Trimmed, Ordinary;
    DefaultPrefix(name);
    assert Rest(HOME, name) == name;
    HomeShape(u, name);
    HomeTail(name);
    HomeValue(EnvOf(u, HOME, name));
    assert "home" != "user" by { assert "home"[0] == 'h' && "user"[0] == 'u'; }
  }

  lemma HomeShape(u: User, name: string)
    requires Ordinary(HOME, name) && Rest(HOME, name) == name && '$' !in name
    ensures VarExpand(EnvOf(u, HOME, name), HOME.dir).Some?
    ensures FinalPath(u, HOME, name)
         == Some(Trimmed(VarExpand(EnvOf(u, HOME, name), HOME.dir).value + Tail(HOME, name)))
  {
    hide FinalPath, EqNoCase, VarExpand, Simple, Trimmed, Ordinary, Tail, EnvOf;
    FinalShape(u, HOME, name);
  }

  lemma HomeTail(name: string)
    ensures Tail(HOME, name) == if name == [] || name[0] == '/' then name else "/" + name
  {
    assert Translated(name, '/', '/') == name;
  }

  // ---------- other users ----------

  /** A name of another user: the prefix, the user, and a mailbox of theirs. */
  predicate OfUser(p: Prefix, user: string, box: string) {
    p.ns == Other && user != [] && p.delim !in user && (box == [] || box[0] == p.delim) && '$' !in box
  }

  lemma {:induction false} UserSpan(user: string, box: string, delim: char)
    requires delim !in user && (box == [] || box[0] == delim)
    ensures UpTo(user + box, delim) == user && BehindUser(user + box, delim) == box
  {
    var s := user + box;
    if user == [] {
      assert s == box;
    } else {
      assert s[1..] == user[1..] + box && s[0] == user[0];
      UserSpan(user[1..], box, delim);
      assert user == [user[0]] + user[1..];
    }
  }

  lemma OtherTail(p: Prefix, user: string, box: string)
    requires OfUser(p, user, box)
    ensures Tail(p, user + box) == Translated(box, '/', p.delim)
  {
    hide UpTo, BehindUser, Translated;
    UserSpan(user, box, p.delim);
    UserSpan(user[1..], box, p.delim);
    assert (user + box)[1..] == user[1..] + box;
  }

  lemma OwnerIs(u: User, p: Prefix, user: string, box: string)
    requires OfUser(p, user, box)
    ensures Owner(u, p, p.prefix + user + box) == user
  {
    hide UpTo;
    UserSpan(user, box, p.delim);
    assert (p.prefix + user + box)[|p.prefix|..] == user + box;
  }

  lemma OtherLetters(p: Prefix, user: string, box: string)
    requires OfUser(p, user, box)
    ensures var t := Translated(box, '/', p.delim); Slashed(t) && '$' !in t
  {
    var t := Translated(box, '/', p.delim);
    forall i | 0 <= i < |t| ensures t[i] == '/' || t[i] in box {}
  }

  /** A name of another user is that mailbox in the directory of the namespace, expanded
      for that user. */
  lemma OtherPath(u: User, p: Prefix, user: string, box: string)
    requires OfUser(p, user, box) && Simple(p.dir)
    ensures var name := p.prefix + user + box;
            var e := EnvOf(u, p, name);
            && e.vars("user") == Some(user) && e.vars("home") == u.homes(user)
            && VarExpand(e, p.dir).Some?
            && FinalPath(u, p, name) == Some(Trimmed(VarExpand(e, p.dir).value + Translated(box, '/', p.delim)))
  {
    hide Simple, VarExpand, HasCommand, Translated, Tail, Trimmed, Owner, Expand, UpTo;
    var name := p.prefix + user + box;
    OwnerIs(u, p, user, box);
    assert Matches(p, name) && Rest(p, name) == user + box;
    OtherTail(p, user, box);
    OtherLetters(p, user, box);
    var e, t := EnvOf(u, p, name), Translated(box, '/', p.delim);
    OtherVariables(u, user);
    ExpandedBehind(e, p.dir, t);
  }

  lemma OtherVariables(u: User, user: string)
    ensures OwnerVariable(u, user, "user") == Some(user) && OwnerVariable(u, user, "home") == u.homes(user)
  {
    assert "home"[0] == 'h' && "user"[0] == 'u';
  }

  lemma ExpandedBehind(e: Env, dir: string, t: string)
    requires Simple(dir) && Slashed(t) && '$' !in t
    ensures VarExpand(e, dir).Some? && Expand(e, dir + t) == Some(VarExpand(e, dir).value + t)
  {
    hide Simple, VarExpand, HasCommand;
    SimpleExpand(e, dir, t);
    NoDollar(e, t);
  }

  const USERS: Prefix := Prefix("~", "$home", '/', Other)

  /** With the directory `$home`, it is a path in the home directory of that user. */
  lemma OtherHome(u: User, user: string, box: string)
    requires OfUser(USERS, user, box) && u.homes(user).Some?
    ensures FinalPath(u, USERS, "~" + user + box) == Some(Trimmed(u.homes(user).value + box))
  {
    hide FinalPath, Simple, VarExpand, Trimmed, EnvOf, OfUser;
    HomeSimple();
    OtherPath(u, USERS, user, box);
    HomeValue(EnvOf(u, USERS, "~" + user + box));
    assert Translated(box, '/', '/') == box;
  }

  lemma HomeSimple()
    ensures Simple("$home")
  {
    assert !EqNoCase("x", "INBOX") by { assert |Fold("x")| == 1 && |Fold("INBOX")| == 5; }
    DefaultPrefix("x");
  }
}
