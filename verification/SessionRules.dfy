/** What the session does, command by command: which commands a state allows, what each
    of them answers, where it leads, and who gets in. */
module SessionRules {
  import opened Common
  import opened Session

  // ---------- the names of the commands ----------

  /** The order of imap4d_command_table */
  function Table(): seq<Command> {
    [CAPABILITY, NOOP, LOGOUT, AUTHENTICATE, LOGIN, SELECT, EXAMINE, CREATE, DELETE, RENAME,
     SUBSCRIBE, UNSUBSCRIBE, LIST, LSUB, STATUS, APPEND, CHECK, CLOSE, UNSELECT, EXPUNGE,
     SEARCH, FETCH, STORE, COPY, UID, NAMESPACE, ID, IDLE, STARTTLS]
  }

  /** util_getcommand, from an entry of the table on */
  function Find(cmd: string, table: seq<Command>): (r: Option<Command>)
    ensures r.Some? ==> r.value in table && EqNoCase(EntryOf(r.value).name, cmd)
    ensures r.None? ==> forall c :: c in table ==> !EqNoCase(EntryOf(c).name, cmd)
  {
    if table == [] then None
    else if |EntryOf(table[0]).name| == |cmd| && EqNoCase(EntryOf(table[0]).name, cmd) then Some(table[0])
    else Find(cmd, table[1..])
  }

  /** The words of a line, as util_do_command looks at them. */
  function LineOf(argv: seq<string>): Line {
    if argv == [] then Empty
    else if |argv| == 1 then TagOnly
    else match Find(argv[1], Table())
         case Some(c) => Known(c)
         case None => Unknown
  }

  lemma Tabled(c: Command)
    ensures c in Table()
  {
  }

  /** The command a name can only belong to, by its length and a few letters. */
  function Candidate(s: string): Command {
    if |s| < 3 then ID
    else if |s| == 3 then UID
    else if |s| == 4 then
      (match s[0] case 'N' => NOOP case 'C' => COPY case 'I' => IDLE case _ => if s[1] == 'I' then LIST else LSUB)
    else if |s| == 5 then
      (match s[0] case 'L' => LOGIN case 'F' => FETCH case 'S' => STORE case _ => if s[1] == 'H' then CHECK else CLOSE)
    else if |s| == 6 then
      (match s[0]
       case 'L' => LOGOUT case 'C' => CREATE case 'D' => DELETE case 'R' => RENAME case 'A' => APPEND
       case _ => if s[1] == 'T' then STATUS else if s[2] == 'L' then SELECT else SEARCH)
    else if |s| == 7 then (if s[2] == 'A' then EXAMINE else EXPUNGE)
    else if |s| == 8 then (if s[0] == 'U' then UNSELECT else STARTTLS)
    else if |s| == 9 then (if s[0] == 'S' then SUBSCRIBE else NAMESPACE)
    else if |s| == 10 then CAPABILITY
    else if |s| == 11 then UNSUBSCRIBE
    else AUTHENTICATE
  }

  lemma ShortCandidate(c: Command)
    requires |EntryOf(c).name| <= 5
    ensures Candidate(EntryOf(c).name) == c
  {
  }

  lemma LongCandidate(c: Command)
    requires |EntryOf(c).name| > 5
    ensures Candidate(EntryOf(c).name) == c
  {
  }

  lemma NameCandidate(c: Command)
    ensures Candidate(EntryOf(c).name) == c
  {
    hide EntryOf, Candidate;
    if |EntryOf(c).name| <= 5 {
      ShortCandidate(c);
    } else {
      LongCandidate(c);
    }
  }

  lemma ShortUpper(c: Command)
    requires |EntryOf(c).name| <= 5
    ensures IsUpper(EntryOf(c).name)
  {
  }

  lemma MiddleUpper(c: Command)
    requires |EntryOf(c).name| == 6
    ensures IsUpper(EntryOf(c).name)
  {
  }

  lemma LongUpper(c: Command)
    requires 6 < |EntryOf(c).name| <= 8
    ensures IsUpper(EntryOf(c).name)
  {
  }

  lemma LongestUpper(c: Command)
    requires |EntryOf(c).name| > 8
    ensures IsUpper(EntryOf(c).name)
  {
  }

  lemma NameUpper(c: Command)
    ensures IsUpper(EntryOf(c).name)
  {
    hide EntryOf, IsUpper;
    if |EntryOf(c).name| <= 5 {
      ShortUpper(c);
    } else if |EntryOf(c).name| == 6 {
      MiddleUpper(c);
    } else if |EntryOf(c).name| <= 8 {
      LongUpper(c);
    } else {
      LongestUpper(c);
    }
  }

  /** The second word of a line names a command if and only if it is a spelling of the
      name in the table. */
  lemma NamesExactly(argv: seq<string>, c: Command)
    requires |argv| > 1
    ensures LineOf(argv) == Known(c) <==> EqNoCase(argv[1], EntryOf(c).name)
    ensures LineOf(argv) == Unknown <==> forall d: Command :: !EqNoCase(argv[1], EntryOf(d).name)
  {
    hide EntryOf, Find, Table;
    var found := Find(argv[1], Table());
    forall d: Command ensures d in Table() && (EqNoCase(argv[1], EntryOf(d).name) ==> found == Some(d)) {
      Tabled(d);
      if found.Some? && EqNoCase(argv[1], EntryOf(d).name) {
        SameSpelling(d, found.value, argv[1]);
      }
    }
  }

  lemma SameSpelling(c: Command, d: Command, word: string)
    requires EqNoCase(word, EntryOf(c).name) && EqNoCase(word, EntryOf(d).name)
    ensures c == d
  {
    hide EntryOf, Candidate;
    NameUpper(c);
    NameUpper(d);
    FoldUpper(EntryOf(c).name);
    FoldUpper(EntryOf(d).name);
    NameCandidate(c);
    NameCandidate(d);
  }

  lemma Named(argv: seq<string>, c: Command, word: string)
    requires |argv| > 1 && EntryOf(c).name == word
    ensures LineOf(argv) == Known(c) <==> EqNoCase(argv[1], word)
  {
    hide EntryOf, LineOf, EqNoCase;
    NamesExactly(argv, c);
  }

  /** The words of sections 6.1 and 6.2 of RFC 3501, in any mix of cases, and what they are taken for. */
  lemma AnyStateWords(argv: seq<string>)
    requires |argv| > 1
    ensures LineOf(argv) == Known(CAPABILITY) <==> EqNoCase(argv[1], "CAPABILITY")
    ensures LineOf(argv) == Known(NOOP) <==> EqNoCase(argv[1], "NOOP")
    ensures LineOf(argv) == Known(LOGOUT) <==> EqNoCase(argv[1], "LOGOUT")
    ensures LineOf(argv) == Known(STARTTLS) <==> EqNoCase(argv[1], "STARTTLS")
    ensures LineOf(argv) == Known(AUTHENTICATE) <==> EqNoCase(argv[1], "AUTHENTICATE")
    ensures LineOf(argv) == Known(LOGIN) <==> EqNoCase(argv[1], "LOGIN")
  {
    hide LineOf, EqNoCase;
    Named(argv, CAPABILITY, "CAPABILITY");
    Named(argv, NOOP, "NOOP");
    Named(argv, LOGOUT, "LOGOUT");
    Named(argv, STARTTLS, "STARTTLS");
    Named(argv, AUTHENTICATE, "AUTHENTICATE");
    Named(argv, LOGIN, "LOGIN");
  }

  /** The words of section 6.3, and of NAMESPACE and ID. */
  lemma MailboxWords(argv: seq<string>)
    requires |argv| > 1
    ensures LineOf(argv) == Known(SELECT) <==> EqNoCase(argv[1], "SELECT")
    ensures LineOf(argv) == Known(EXAMINE) <==> EqNoCase(argv[1], "EXAMINE")
    ensures LineOf(argv) == Known(CREATE) <==> EqNoCase(argv[1], "CREATE")
    ensures LineOf(argv) == Known(DELETE) <==> EqNoCase(argv[1], "DELETE")
    ensures LineOf(argv) == Known(RENAME) <==> EqNoCase(argv[1], "RENAME")
    ensures LineOf(argv) == Known(SUBSCRIBE) <==> EqNoCase(argv[1], "SUBSCRIBE")
    ensures LineOf(argv) == Known(UNSUBSCRIBE) <==> EqNoCase(argv[1], "UNSUBSCRIBE")
    ensures LineOf(argv) == Known(LIST) <==> EqNoCase(argv[1], "LIST")
    ensures LineOf(argv) == Known(LSUB) <==> EqNoCase(argv[1], "LSUB")
    ensures LineOf(argv) == Known(STATUS) <==> EqNoCase(argv[1], "STATUS")
    ensures LineOf(argv) == Known(APPEND) <==> EqNoCase(argv[1], "APPEND")
    ensures LineOf(argv) == Known(NAMESPACE) <==> EqNoCase(argv[1], "NAMESPACE")
    ensures LineOf(argv) == Known(ID) <==> EqNoCase(argv[1], "ID")
  {
    hide LineOf, EqNoCase;
    Named(argv, SELECT, "SELECT");
    Named(argv, EXAMINE, "EXAMINE");
    Named(argv, CREATE, "CREATE");
    Named(argv, DELETE, "DELETE");
    Named(argv, RENAME, "RENAME");
    Named(argv, SUBSCRIBE, "SUBSCRIBE");
    Named(argv, UNSUBSCRIBE, "UNSUBSCRIBE");
    Named(argv, LIST, "LIST");
    Named(argv, LSUB, "LSUB");
    Named(argv, STATUS, "STATUS");
    Named(argv, APPEND, "APPEND");
    Named(argv, NAMESPACE, "NAMESPACE");
    Named(argv, ID, "ID");
  }

  /** The words of section 6.4, and of UNSELECT and IDLE. */
  lemma MessageWords(argv: seq<string>)
    requires |argv| > 1
    ensures LineOf(argv) == Known(CHECK) <==> EqNoCase(argv[1], "CHECK")
    ensures LineOf(argv) == Known(CLOSE) <==> EqNoCase(argv[1], "CLOSE")
    ensures LineOf(argv) == Known(EXPUNGE) <==> EqNoCase(argv[1], "EXPUNGE")
    ensures LineOf(argv) == Known(SEARCH) <==> EqNoCase(argv[1], "SEARCH")
    ensures LineOf(argv) == Known(FETCH) <==> EqNoCase(argv[1], "FETCH")
    ensures LineOf(argv) == Known(STORE) <==> EqNoCase(argv[1], "STORE")
    ensures LineOf(argv) == Known(COPY) <==> EqNoCase(argv[1], "COPY")
    ensures LineOf(argv) == Known(UID) <==> EqNoCase(argv[1], "UID")
    ensures LineOf(argv) == Known(UNSELECT) <==> EqNoCase(argv[1], "UNSELECT")
    ensures LineOf(argv) == Known(IDLE) <==> EqNoCase(argv[1], "IDLE")
  {
    hide LineOf, EqNoCase;
    Named(argv, CHECK, "CHECK");
    Named(argv, CLOSE, "CLOSE");
    Named(argv, EXPUNGE, "EXPUNGE");
    Named(argv, SEARCH, "SEARCH");
    Named(argv, FETCH, "FETCH");
    Named(argv, STORE, "STORE");
    Named(argv, COPY, "COPY");
    Named(argv, UID, "UID");
    Named(argv, UNSELECT, "UNSELECT");
    Named(argv, IDLE, "IDLE");
  }

  // ---------- the states of the commands ----------

  /** Section 6.1 of RFC 3501, and with them section 6.2 */
  predicate BeforeLogin(c: Command) {
    c in {CAPABILITY, NOOP, LOGOUT} || c in {STARTTLS, AUTHENTICATE, LOGIN}
  }

  /** Sections 6.1 and 6.3, NAMESPACE (RFC 2342) and ID (RFC 2971) */
  predicate AfterLogin(c: Command) {
    || c in {CAPABILITY, NOOP, LOGOUT}
    || c in {SELECT, EXAMINE, CREATE, DELETE, RENAME, SUBSCRIBE, UNSUBSCRIBE, LIST, LSUB, STATUS, APPEND}
    || c in {NAMESPACE, ID}
  }

  /** Sections 6.1, 6.3 and 6.4, UNSELECT (RFC 3691) and IDLE (RFC 2177) */
  predicate WhenSelected(c: Command) {
    AfterLogin(c) || c in {CHECK, CLOSE, EXPUNGE, SEARCH, FETCH, STORE, COPY, UID} || c in {UNSELECT, IDLE}
  }

  /** The commands that sections 6.1 to 6.4 of RFC 3501 give to a state. */
  predicate Permitted(state: nat, c: Command) {
    || (state == STATE_NONAUTH && BeforeLogin(c))
    || (state == STATE_AUTH && AfterLogin(c))
    || (state == STATE_SEL && WhenSelected(c))
  }

  lemma AllowedExactly(v: View, c: Command)
    requires v.state == STATE_NONAUTH || v.state == STATE_AUTH || v.state == STATE_SEL
    ensures Allowed(v, c) <==> Permitted(v.state, c)
  {
  }

  /** Where synchronisation leads: unless the mailbox is corrupted, the table is that of
      the open mailbox. */
  lemma SyncedExactly(v: View, luck: Luck)
    requires Inv(v) && v.alive
    ensures Synced(v, luck) ==
            if v.mbox.Some? && (v.table.None? || luck.changed) && luck.corrupted then v.(alive := false)
            else v.(table := v.mbox)
  {
    hide Advertised;
  }

  /** What a line is answered that names no command, or one that is not allowed. */
  predicate Misplaced(state: nat, line: Line) {
    !line.Known? || !Permitted(state, line.c)
  }

  /** It is answered BAD, and the session stays as it is. */
  lemma WrongState(v: View, line: Line, luck: Luck)
    requires Inv(v) && v.alive && Misplaced(v.state, line)
    ensures Do(v, line, luck) == Synced(v, luck).(reply := RespBad)
  {
    hide Allowed, EntryOf, Advertised, Synced;
    SyncedState(v, luck);
    if line.Known? {
      AllowedExactly(v, line.c);
      Failures(line.c);
    }
  }

  /** Only commands on mailboxes fail into another state, and only downwards. */
  lemma Failures(c: Command)
    ensures EntryOf(c).failure == if c in {SELECT, EXAMINE, CLOSE, UNSELECT} then STATE_AUTH
                                  else if c == LOGOUT then STATE_LOGOUT else STATE_NONE
    ensures EntryOf(c).success == if c in {LOGIN, AUTHENTICATE, CLOSE, UNSELECT} then STATE_AUTH
                                  else if c in {SELECT, EXAMINE} then STATE_SEL else STATE_NONE
  {
  }

  /** Before anybody is authenticated, every line but those of six commands is answered
      BAD, whatever happened before; nothing else changes. */
  lemma BeforeAnybody(mode: TlsMode, loginDisabled: bool, preauth: Preauth, inputs: seq<Input>, before: Luck,
                      argv: seq<string>, luck: Luck)
    requires |argv| > 1 ==>
               && !EqNoCase(argv[1], "CAPABILITY") && !EqNoCase(argv[1], "NOOP") && !EqNoCase(argv[1], "LOGOUT")
               && !EqNoCase(argv[1], "STARTTLS") && !EqNoCase(argv[1], "AUTHENTICATE") && !EqNoCase(argv[1], "LOGIN")
    ensures var v := Synced(Run(Start(mode, loginDisabled, preauth), inputs), before);
            v.alive && v.state == STATE_NONAUTH ==> Do(v, LineOf(argv), luck) == v.(reply := RespBad)
  {
    hide Start, Run, Do, LineOf, EqNoCase, Synced, Advertised;
    var u := Run(Start(mode, loginDisabled, preauth), inputs);
    StartKeeps(mode, loginDisabled, preauth);
    RunKeeps(Start(mode, loginDisabled, preauth), inputs);
    var v := Synced(u, before);
    if v.alive && v.state == STATE_NONAUTH {
      AliveBefore(u, before);
      SyncedKeeps(u, before);
      OtherLine(argv);
      WrongState(v, LineOf(argv), luck);
      SyncedExactly(v, luck);
    }
  }

  lemma OtherLine(argv: seq<string>)
    requires |argv| > 1 ==>
               && !EqNoCase(argv[1], "CAPABILITY") && !EqNoCase(argv[1], "NOOP") && !EqNoCase(argv[1], "LOGOUT")
               && !EqNoCase(argv[1], "STARTTLS") && !EqNoCase(argv[1], "AUTHENTICATE") && !EqNoCase(argv[1], "LOGIN")
    ensures Misplaced(STATE_NONAUTH, LineOf(argv))
  {
    hide EqNoCase;
    if |argv| > 1 {
      hide LineOf;
      AnyStateWords(argv);
    }
  }

  /** In every state a run can reach, a line that is misplaced is answered BAD, and the
      session stays as it is. */
  lemma MisplacedAnywhere(mode: TlsMode, loginDisabled: bool, preauth: Preauth, inputs: seq<Input>, before: Luck,
                          line: Line, luck: Luck)
    ensures var v := Synced(Run(Start(mode, loginDisabled, preauth), inputs), before);
            v.alive && Misplaced(v.state, line) ==> Do(v, line, luck) == Synced(v, luck).(reply := RespBad)
  {
    hide Start, Run, Do, Misplaced, Synced, Inv;
    var u := Run(Start(mode, loginDisabled, preauth), inputs);
    StartKeeps(mode, loginDisabled, preauth);
    RunKeeps(Start(mode, loginDisabled, preauth), inputs);
    var v := Synced(u, before);
    if v.alive && Misplaced(v.state, line) {
      AliveBefore(u, before);
      SyncedKeeps(u, before);
      WrongState(v, line, luck);
    }
  }

  // ---------- who gets in ----------

  /** A known user with the right password whose session can be set up, in a LOGIN with
      two arguments. */
  predicate GoodLogin(luck: Luck) {
    luck.args && luck.user && luck.password && luck.setup
  }

  /** A mechanism that succeeds, by itself or by its response, and names a user whose
      session can be set up, in an AUTHENTICATE with one argument. */
  predicate GoodMechanism(luck: Luck) {
    && luck.args && luck.username && luck.setup
    && (luck.auth == AuthOk || (luck.auth == AuthResp && luck.response == RespOk))
  }

  /** LOGIN is answered OK if and only if it is enabled and good; BAD for a wrong number
      of arguments.  OK leads to the authenticated state; otherwise nothing happened. */
  lemma LoginExactly(v: View, luck: Luck)
    requires Inv(v) && v.alive && v.state == STATE_NONAUTH
    ensures var u := Do(v, Known(LOGIN), luck);
            var enabled := !v.loginDisabled && v.tls != TlsRequired;
            && (u.reply == RespOk <==> enabled && GoodLogin(luck))
            && (u.reply == RespBad <==> enabled && !luck.args) && u.reply != RespNone
            && (u.reply == RespOk ==> u == v.(table := None, reply := RespOk, state := STATE_AUTH, log := u.log)
                                      && u.log == v.log + [SetupDone])
            && (u.reply != RespOk ==> u == v.(table := None, reply := u.reply))
  {
    hide Advertised, EntryOf;
    AllowedExactly(v, LOGIN);
    Failures(LOGIN);
  }

  /** AUTHENTICATE, likewise. */
  lemma AuthenticateExactly(v: View, luck: Luck)
    requires Inv(v) && v.alive && v.state == STATE_NONAUTH
    ensures var u := Do(v, Known(AUTHENTICATE), luck);
            && (u.reply == RespOk <==> v.tls != TlsRequired && GoodMechanism(luck))
            && (u.reply == RespBad <==> !luck.args) && u.reply != RespNone
            && (u.reply == RespOk ==> u == v.(table := None, reply := RespOk, state := STATE_AUTH, log := u.log)
                                      && u.log == v.log + [SetupDone])
            && (u.reply != RespOk ==> u == v.(table := None, reply := u.reply))
  {
    hide Advertised, EntryOf;
    AllowedExactly(v, AUTHENTICATE);
    Failures(AUTHENTICATE);
  }

  // ---------- the other commands ----------

  /** STARTTLS is answered OK if and only if it is advertised and comes alone.  The
      session goes on only when the handshake succeeds: then encryption is on, LOGIN is
      enabled, nothing of it is advertised any more, and all else still is. */
  lemma StartTlsExactly(v: View, luck: Luck)
    requires Inv(v) && v.alive && v.state == STATE_NONAUTH
    ensures var u := Do(v, Known(STARTTLS), luck);
            && (u.reply == RespOk <==> CAPA_STARTTLS in v.capa && luck.args)
            && (u.reply != RespOk ==> u == v.(table := None, reply := RespBad))
            && (u.reply == RespOk && !luck.tlsUp ==> u == v.(table := None, reply := RespOk, alive := false))
            && (u.reply == RespOk && luck.tlsUp ==>
                  && u == v.(table := None, reply := RespOk, tls := TlsNo, loginDisabled := false,
                             capa := u.capa, log := v.log + [TlsStarted])
                  && CAPA_STARTTLS !in u.capa && CAPA_LOGINDISABLED !in u.capa && CAPA_XTLSREQUIRED !in u.capa)
            && forall name ::
                 name != CAPA_STARTTLS && name != CAPA_LOGINDISABLED && name != CAPA_XTLSREQUIRED ==>
                   multiset(u.capa)[name] == multiset(v.capa)[name]
  {
    hide EntryOf, Without;
    AllowedExactly(v, STARTTLS);
    Failures(STARTTLS);
    InvSound(v);
    EncryptedCapa(v);
    forall name | name != CAPA_STARTTLS && name != CAPA_LOGINDISABLED && name != CAPA_XTLSREQUIRED
      ensures multiset(Encrypted(v).capa)[name] == multiset(v.capa)[name]
    {
      OtherCapa(v, name);
    }
  }

  lemma OtherCapa(v: View, name: string)
    requires name != CAPA_STARTTLS && name != CAPA_LOGINDISABLED && name != CAPA_XTLSREQUIRED
    ensures multiset(Encrypted(v).capa)[name] == multiset(v.capa)[name]
  {
    hide Without;
    var a := Without(v.capa, CAPA_STARTTLS);
    var b := Without(a, CAPA_LOGINDISABLED);
    WithoutCount(v.capa, CAPA_STARTTLS, name);
    WithoutCount(a, CAPA_LOGINDISABLED, name);
    WithoutCount(b, CAPA_XTLSREQUIRED, name);
  }

  /** A command of the wrong form that fails into the authenticated state. */
  function Refused(v: View, luck: Luck): View {
    var u := Synced(v, luck).(reply := RespBad);
    if u.alive then u.(state := STATE_AUTH) else u
  }

  /** SELECT and EXAMINE are answered OK if and only if the mailbox can be found, opened
      and read: then it is the one that is open, as no mailbox before it was.  Otherwise
      no mailbox is selected, and unless the arguments were wrong, none is open. */
  lemma SelectExactly(v: View, c: Command, luck: Luck)
    requires Inv(v) && v.alive && v.state != STATE_NONAUTH && (c == SELECT || c == EXAMINE)
    ensures var u := Do(v, Known(c), luck);
            && (u.reply == RespOk <==> luck.args && luck.named && luck.openOk && luck.status)
            && (u.reply == RespBad <==> !luck.args) && u.reply != RespNone
            && (u.reply == RespOk ==>
                  && u.state == STATE_SEL && u.mbox == Some(v.boxes) && u.boxes == v.boxes + 1
                  && (u.alive <==> !luck.corrupted) && (u.alive ==> u.table == u.mbox)
                  && u.log == v.log && u.tls == v.tls && u.capa == v.capa)
            && (u.reply == RespBad ==> u == Refused(v, luck))
            && (u.reply == RespNo ==>
                  u == v.(mbox := None, table := None, state := STATE_AUTH, reply := RespNo, boxes := u.boxes))
  {
    hide Inv, EntryOf, Handle, Allowed, Synced, Completed, OpenBox;
    ThreeStates(v);
    AllowedExactly(v, c);
    Failures(c);
    OwnMailboxHandle(v, c, luck);
    if luck.args {
      DroppedKeeps(v, luck);
      OpenExactly(v.(mbox := None, table := None), c, luck);
    } else {
      RefusedSelect(v, c, luck);
    }
  }

  lemma RefusedSelect(v: View, c: Command, luck: Luck)
    requires (v.state == STATE_AUTH || v.state == STATE_SEL) && (c == SELECT || c == EXAMINE)
    ensures Completed(v, EntryOf(c), RespBad, luck) == Refused(v, luck)
  {
  }

  lemma OpenExactly(v: View, c: Command, luck: Luck)
    requires v.alive && v.mbox.None? && v.table.None? && (v.state == STATE_AUTH || v.state == STATE_SEL)
    requires c == SELECT || c == EXAMINE
    ensures var u := OpenBox(v, EntryOf(c), luck);
            if luck.named && luck.openOk && luck.status then
              && u.reply == RespOk && u.state == STATE_SEL && u.mbox == Some(v.boxes) && u.boxes == v.boxes + 1
              && (u.alive <==> !luck.corrupted) && (u.alive ==> u.table == u.mbox)
              && u.log == v.log && u.tls == v.tls && u.capa == v.capa
            else u == v.(state := STATE_AUTH, reply := RespNo, boxes := u.boxes)
  {
    hide EntryOf;
    Failures(c);
  }

  /** CLOSE and UNSELECT always end the selected state; the mailbox stays open when the
      arguments were wrong. */
  lemma CloseExactly(v: View, c: Command, luck: Luck)
    requires Inv(v) && v.alive && v.state == STATE_SEL && (c == CLOSE || c == UNSELECT)
    ensures var u := Do(v, Known(c), luck);
            && (u.reply == RespOk <==> luck.args && luck.closed) && (u.reply == RespBad <==> !luck.args)
            && (u.reply != RespBad ==> u == v.(mbox := None, table := None, state := STATE_AUTH, reply := u.reply))
            && (u.reply == RespBad ==> u == Refused(v, luck)) && u.reply != RespNone
  {
    hide Advertised, EntryOf;
    AllowedExactly(v, c);
    Failures(c);
  }

  /** EXPUNGE reads the flag table anew and stays in the selected state. */
  lemma ExpungeExactly(v: View, luck: Luck)
    requires Inv(v) && v.alive && v.state == STATE_SEL
    ensures var u := Do(v, Known(EXPUNGE), luck);
            if !luck.args then u == Synced(v, luck).(reply := RespBad)
            else if luck.corrupted then u == v.(table := None, alive := false)
            else u == v.(table := v.mbox, reply := RespOk)
  {
    hide Advertised, EntryOf;
    AllowedExactly(v, EXPUNGE);
    Failures(EXPUNGE);
  }

  /** LOGOUT ends the session, in every state. */
  lemma LogoutExactly(v: View, luck: Luck)
    requires Inv(v) && v.alive
    ensures var u := Do(v, Known(LOGOUT), luck);
            if luck.args then u == v.(mbox := None, alive := false, reply := RespOk)
            else u == Synced(v, luck).(reply := RespBad)
  {
    hide Advertised, EntryOf;
    AllowedExactly(v, LOGOUT);
    Failures(LOGOUT);
  }

  /** The remaining commands give the answer of what they do, or have given it already,
      and leave the session as it is. */
  lemma OtherExactly(v: View, c: Command, luck: Luck)
    requires Inv(v) && v.alive && Permitted(v.state, c)
    requires c !in {LOGIN, AUTHENTICATE, STARTTLS} && c !in {SELECT, EXAMINE, CLOSE, UNSELECT}
    requires c !in {EXPUNGE, LOGOUT}
    ensures var u := Do(v, Known(c), luck);
            if luck.rc == RespNone then u == v.(reply := RespNone) else u == Synced(v, luck).(reply := luck.rc)
  {
    hide Permitted, Allowed, EntryOf, Advertised, Synced, Handle;
    SyncedState(v, luck);
    AllowedExactly(v, c);
    Failures(c);
    PlainHandle(v, c, luck);
  }

  // ---------- the diagram of states ----------

  /** Section 3.4 of RFC 3501, except that a SELECT or CLOSE that fails leads to the
      authenticated state even when its arguments were wrong. */
  ghost function NextState(state: nat, line: Line, reply: Resp): nat {
    if Misplaced(state, line) then state
    else if line.c in {LOGIN, AUTHENTICATE} then (if reply == RespOk then STATE_AUTH else STATE_NONAUTH)
    else if line.c in {SELECT, EXAMINE} then (if reply == RespOk then STATE_SEL else STATE_AUTH)
    else if line.c in {CLOSE, UNSELECT} then STATE_AUTH
    else state
  }

  lemma SyncedOnly(v: View, luck: Luck)
    ensures Synced(v, luck).state == v.state && Synced(v, luck).mbox == v.mbox && Synced(v, luck).log == v.log
    ensures Synced(v, luck).reply == v.reply && Synced(v, luck).boxes == v.boxes
  {
  }

  /** `u` is where the diagram leads from `v`; only a good LOGIN or AUTHENTICATE leads out
      of the non-authenticated state, and nothing back into it. */
  ghost predicate Moves(v: View, line: Line, u: View) {
    && (u.alive ==> u.state == NextState(v.state, line, u.reply))
    && (u.state == STATE_NONAUTH <==>
          v.state == STATE_NONAUTH && !((line == Known(LOGIN) || line == Known(AUTHENTICATE)) && u.reply == RespOk))
  }

  lemma EnteringMoves(v: View, c: Command, luck: Luck)
    requires Inv(v) && v.alive && v.state == STATE_NONAUTH && c in {LOGIN, AUTHENTICATE, STARTTLS}
    ensures Moves(v, Known(c), Do(v, Known(c), luck))
  {
    hide Do, Inv;
    if c == LOGIN {
      LoginExactly(v, luck);
    } else if c == AUTHENTICATE {
      AuthenticateExactly(v, luck);
    } else {
      StartTlsExactly(v, luck);
    }
  }

  lemma SelectMoves(v: View, c: Command, luck: Luck)
    requires Inv(v) && v.alive && Permitted(v.state, c) && (c == SELECT || c == EXAMINE)
    ensures Moves(v, Known(c), Do(v, Known(c), luck))
  {
    hide Do, Inv, Synced;
    SyncedOnly(v, luck);
    SelectExactly(v, c, luck);
  }

  lemma SelectedMoves(v: View, c: Command, luck: Luck)
    requires Inv(v) && v.alive && v.state == STATE_SEL && c in {CLOSE, UNSELECT, EXPUNGE}
    ensures Moves(v, Known(c), Do(v, Known(c), luck))
  {
    hide Do, Inv, Synced;
    SyncedOnly(v, luck);
    if c == EXPUNGE {
      ExpungeExactly(v, luck);
    } else {
      CloseExactly(v, c, luck);
    }
  }

  lemma OtherMoves(v: View, c: Command, luck: Luck)
    requires Inv(v) && v.alive && Permitted(v.state, c)
    requires c !in {LOGIN, AUTHENTICATE, STARTTLS} && c !in {SELECT, EXAMINE, CLOSE, UNSELECT} && c != EXPUNGE
    ensures Moves(v, Known(c), Do(v, Known(c), luck))
  {
    hide Do, Inv, Synced, Permitted;
    SyncedOnly(v, luck);
    if c == LOGOUT {
      LogoutExactly(v, luck);
    } else {
      OtherExactly(v, c, luck);
    }
  }

  /** Every command moves along the diagram. */
  lemma Diagram(v: View, line: Line, luck: Luck)
    requires Inv(v) && v.alive
    ensures Moves(v, line, Do(v, line, luck))
  {
    hide Do, Inv, Synced;
    if Misplaced(v.state, line) {
      hide Permitted;
      SyncedOnly(v, luck);
      WrongState(v, line, luck);
      assert line.Known? && line.c in {LOGIN, AUTHENTICATE} ==> Do(v, line, luck).reply == RespBad;
    } else {
      hide Moves;
      var c := line.c;
      if c in {LOGIN, AUTHENTICATE, STARTTLS} {
        EnteringMoves(v, c, luck);
      } else if c == SELECT || c == EXAMINE {
        SelectMoves(v, c, luck);
      } else if c in {CLOSE, UNSELECT, EXPUNGE} {
        SelectedMoves(v, c, luck);
      } else {
        OtherMoves(v, c, luck);
      }
    }
  }

  // ---------- over whole runs ----------

  /** In the session `v`, the input `i` is a good LOGIN that is enabled, or a good
      AUTHENTICATE. */
  predicate Enters(v: View, i: Input) {
    && v.alive && v.state == STATE_NONAUTH && v.tls != TlsRequired
    && ((i.line == Known(LOGIN) && !v.loginDisabled && GoodLogin(i.luck))
        || (i.line == Known(AUTHENTICATE) && GoodMechanism(i.luck)))
  }

  lemma TurnEnters(v: View, i: Input)
    requires Inv(v)
    ensures Turn(v, i.line, i.before, i.luck, i.after).state == STATE_NONAUTH <==>
              v.state == STATE_NONAUTH && !Enters(v, i)
  {
    hide Do, Inv, Synced, GoodLogin, GoodMechanism;
    if v.alive {
      SyncedOnly(v, i.before);
      SyncedKeeps(v, i.before);
      var u := Synced(v, i.before);
      if u.alive {
        Diagram(u, i.line, i.luck);
        SyncedOnly(Do(u, i.line, i.luck), i.after);
        if u.state == STATE_NONAUTH {
          LoginExactly(u, i.luck);
          AuthenticateExactly(u, i.luck);
        }
      } else if v.state == STATE_NONAUTH {
        NothingOpen(v, i.before);
      }
    }
  }

  lemma NothingOpen(v: View, luck: Luck)
    requires Inv(v) && v.alive && v.state == STATE_NONAUTH
    ensures Synced(v, luck).alive
  {
  }

  /** Whether the `k`th input lets somebody in. */
  ghost predicate EntersAt(start: View, inputs: seq<Input>, k: nat)
    requires k < |inputs|
  {
    Enters(Run(start, inputs[..k]), inputs[k])
  }

  lemma EntersBefore(start: View, inputs: seq<Input>, n: nat, k: nat)
    requires k < n <= |inputs|
    ensures EntersAt(start, inputs[..n], k) <==> EntersAt(start, inputs, k)
  {
    assert inputs[..n][..k] == inputs[..k];
  }

  lemma {:induction false} RunEnters(start: View, inputs: seq<Input>)
    requires Inv(start)
    ensures Run(start, inputs).state != STATE_NONAUTH <==>
              start.state != STATE_NONAUTH || exists k :: 0 <= k < |inputs| && EntersAt(start, inputs, k)
  {
    hide Turn, Inv, Enters;
    if inputs != [] {
      var n := |inputs| - 1;
      RunEnters(start, inputs[..n]);
      RunKeeps(start, inputs[..n]);
      TurnEnters(Run(start, inputs[..n]), inputs[n]);
      forall k | 0 <= k < n ensures EntersAt(start, inputs[..n], k) <==> EntersAt(start, inputs, k) {
        EntersBefore(start, inputs, n, k);
      }
      assert EntersAt(start, inputs, n) <==> Enters(Run(start, inputs[..n]), inputs[n]);
    }
  }

  /** A session is authenticated if and only if it was preauthenticated, or one of its
      inputs was a good LOGIN while that was enabled, or a good AUTHENTICATE, and TLS was
      not outstanding. */
  lemma AuthenticatedExactly(mode: TlsMode, loginDisabled: bool, preauth: Preauth, inputs: seq<Input>)
    ensures var start := Start(mode, loginDisabled, preauth);
            var v := Run(start, inputs);
            v.state == STATE_AUTH || v.state == STATE_SEL <==>
              preauth == PreauthDone || exists k :: 0 <= k < |inputs| && EntersAt(start, inputs, k)
  {
    hide Start, Run, Inv, EntersAt;
    var start := Start(mode, loginDisabled, preauth);
    StartKeeps(mode, loginDisabled, preauth);
    StartState(mode, loginDisabled, preauth);
    RunKeeps(start, inputs);
    RunEnters(start, inputs);
    ThreeStates(Run(start, inputs));
  }

  lemma StartState(mode: TlsMode, loginDisabled: bool, preauth: Preauth)
    ensures Start(mode, loginDisabled, preauth).state == if preauth == PreauthDone then STATE_AUTH else STATE_NONAUTH
  {
    hide StartCapa, Without;
  }

  lemma ThreeStates(v: View)
    requires Inv(v)
    ensures v.state == STATE_NONAUTH || v.state == STATE_AUTH || v.state == STATE_SEL
  {
  }

  /** In words: nobody is authenticated without a right password or a mechanism that
      succeeded, unless the session was preauthenticated. */
  lemma NobodyElse(mode: TlsMode, loginDisabled: bool, preauth: Preauth, inputs: seq<Input>)
    requires preauth != PreauthDone
    requires forall k :: 0 <= k < |inputs| && inputs[k].line == Known(LOGIN) ==>
               !(inputs[k].luck.user && inputs[k].luck.password)
    requires forall k :: 0 <= k < |inputs| && inputs[k].line == Known(AUTHENTICATE) ==>
               inputs[k].luck.auth != AuthOk && !(inputs[k].luck.auth == AuthResp && inputs[k].luck.response == RespOk)
    ensures Run(Start(mode, loginDisabled, preauth), inputs).state == STATE_NONAUTH
  {
    hide Start, Run, Inv;
    var start := Start(mode, loginDisabled, preauth);
    AuthenticatedExactly(mode, loginDisabled, preauth, inputs);
    StartKeeps(mode, loginDisabled, preauth);
    RunKeeps(start, inputs);
    ThreeStates(Run(start, inputs));
  }

  /** The first command of a session, with the right and with the wrong password. */
  lemma FirstLogin()
    ensures var v := Start(TlsNo, false, NoPreauth);
            && Do(v, Known(LOGIN), FAIR).reply == RespOk && Do(v, Known(LOGIN), FAIR).state == STATE_AUTH
            && Do(v, Known(LOGIN), FAIR.(password := false)) == v.(reply := RespNo)
  {
    hide Start, Inv, Do;
    var v := Start(TlsNo, false, NoPreauth);
    StartKeeps(TlsNo, false, NoPreauth);
    FreshStart();
    LoginExactly(v, FAIR);
    LoginExactly(v, FAIR.(password := false));
  }

  lemma FreshStart()
    ensures var v := Start(TlsNo, false, NoPreauth);
            v.alive && v.state == STATE_NONAUTH && v.table.None? && !v.loginDisabled && v.tls == TlsNo
  {
    hide StartCapa;
  }

  // ---------- what CAPABILITY always lists ----------

  ghost predicate SameOthers(a: seq<string>, b: seq<string>) {
    forall name :: name != CAPA_STARTTLS && name != CAPA_LOGINDISABLED && name != CAPA_XTLSREQUIRED ==>
      multiset(a)[name] == multiset(b)[name]
  }

  lemma EncryptedOthers(v: View)
    ensures SameOthers(v.capa, Encrypted(v).capa)
  {
    hide Encrypted;
    forall name | name != CAPA_STARTTLS && name != CAPA_LOGINDISABLED && name != CAPA_XTLSREQUIRED
      ensures multiset(v.capa)[name] == multiset(Encrypted(v).capa)[name]
    {
      OtherCapa(v, name);
    }
  }

  lemma {:induction false} RunOthers(start: View, inputs: seq<Input>)
    ensures SameOthers(start.capa, Run(start, inputs).capa)
  {
    hide Turn, Encrypted;
    if inputs != [] {
      var n := |inputs| - 1;
      RunOthers(start, inputs[..n]);
      TurnGrows(Run(start, inputs[..n]), inputs[n]);
      EncryptedOthers(Run(start, inputs[..n]));
    }
  }

  /** Whatever happens, the server names the protocol and its extensions, once each. */
  lemma AlwaysListed(mode: TlsMode, loginDisabled: bool, preauth: Preauth, inputs: seq<Input>, name: string)
    requires name in ["IMAP4rev1", "NAMESPACE", "ID", "IDLE", "LITERAL+", "UNSELECT"]
    ensures multiset(Run(Start(mode, loginDisabled, preauth), inputs).capa)[name] == 1
  {
    hide Run, Start;
    var start := Start(mode, loginDisabled, preauth);
    RunOthers(start, inputs);
    OptionalNames(name);
    ListedAtStart(mode, loginDisabled, preauth, name);
  }

  lemma ListedAtStart(mode: TlsMode, loginDisabled: bool, preauth: Preauth, name: string)
    requires name in ["IMAP4rev1", "NAMESPACE", "ID", "IDLE", "LITERAL+", "UNSELECT"]
    ensures multiset(Start(mode, loginDisabled, preauth).capa)[name] == 1
  {
    hide Encrypted, StartCapa;
    var capa := StartCapa(mode, loginDisabled);
    EncryptedOthers(View(STATE_NONAUTH, None, None, 0, mode, loginDisabled, capa, RespOk, true, []));
    OptionalNames(name);
    ListedOnce(mode, loginDisabled, name);
  }

  lemma OptionalNames(name: string)
    requires name in ["IMAP4rev1", "NAMESPACE", "ID", "IDLE", "LITERAL+", "UNSELECT"]
    ensures name != CAPA_STARTTLS && name != CAPA_LOGINDISABLED && name != CAPA_XTLSREQUIRED
  {
    assert |name| == 8 ==> name[0] == 'L' || name[0] == 'U';
  }

  lemma ListedOnce(mode: TlsMode, loginDisabled: bool, name: string)
    requires name in ["IMAP4rev1", "NAMESPACE", "ID", "IDLE", "LITERAL+", "UNSELECT"]
    ensures multiset(StartCapa(mode, loginDisabled))[name] == 1
  {
    hide LoginCapa, TlsCapa;
    OptionalNames(name);
    CountJoined(BASE_CAPA, LoginCapa(loginDisabled), TlsCapa(mode));
    OptionalCounts(mode, loginDisabled, name);
    BaseOnce(name);
  }

  lemma OptionalCounts(mode: TlsMode, loginDisabled: bool, name: string)
    requires name != CAPA_STARTTLS && name != CAPA_LOGINDISABLED && name != CAPA_XTLSREQUIRED
    ensures multiset(LoginCapa(loginDisabled))[name] == 0 && multiset(TlsCapa(mode))[name] == 0
  {
  }

  lemma BaseOnce(name: string)
    requires name in ["IMAP4rev1", "NAMESPACE", "ID", "IDLE", "LITERAL+", "UNSELECT"]
    ensures multiset(BASE_CAPA)[name] == 1
  {
    var a: string, b: string, c: string, d: string, e: string, f: string :=
      "IMAP4rev1", "NAMESPACE", "ID", "IDLE", "LITERAL+", "UNSELECT";
    assert |a| == 9 && |b| == 9 && |c| == 2 && |d| == 4 && |e| == 8 && |f| == 8 && a[0] != b[0] && e[0] != f[0];
    assert BASE_CAPA == [a, b, c, d, e, f];
  }

  /** And it names what sections 6.2.1 and 6.2.3 of RFC 3501 ask for, in these words, while
      it applies. */
  lemma ListedWhileTrue(mode: TlsMode, loginDisabled: bool, preauth: Preauth, inputs: seq<Input>)
    ensures var v := Run(Start(mode, loginDisabled, preauth), inputs);
            && ("STARTTLS" in v.capa <==> v.tls == TlsOndemand || v.tls == TlsRequired)
            && ("XTLSREQUIRED" in v.capa <==> v.tls == TlsRequired)
            && ("LOGINDISABLED" in v.capa <==> v.loginDisabled)
  {
    hide Run, Start;
    EveryRun(mode, loginDisabled, preauth, inputs);
  }
}
