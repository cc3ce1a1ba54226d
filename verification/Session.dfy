/** The session: its states, the mailbox in use, who owns the flag table, and TLS.  Every
    command is a function from view to view; what the outside world decides comes in as
    `Luck`. */
module Session {
  import opened Common

  const STATE_NONE: nat := 0
  const STATE_NONAUTH: nat := 1
  const STATE_AUTH: nat := 2
  const STATE_SEL: nat := 4
  const STATE_LOGOUT: nat := 8
  const STATE_ALL: nat := 15

  /** `mask & state`, for a state that is a single bit */
  predicate HasBit(mask: nat, state: nat) {
    || (state == STATE_NONAUTH && mask % 2 == 1)
    || (state == STATE_AUTH && mask / 2 % 2 == 1)
    || (state == STATE_SEL && mask / 4 % 2 == 1)
    || (state == STATE_LOGOUT && mask / 8 % 2 == 1)
  }

  datatype Resp = RespOk | RespBad | RespNo | RespNone

  datatype Entry = Entry(name: string, states: nat, failure: nat, success: nat)

  datatype Command =
    | CAPABILITY | NOOP | LOGOUT | AUTHENTICATE | LOGIN | SELECT | EXAMINE | CREATE | DELETE | RENAME
    | SUBSCRIBE | UNSUBSCRIBE | LIST | LSUB | STATUS | APPEND | CHECK | CLOSE | UNSELECT | EXPUNGE
    | SEARCH | FETCH | STORE | COPY | UID | NAMESPACE | ID | IDLE | STARTTLS

  /** imap4d_command_table */
  function EntryOf(c: Command): Entry {
    match c
    case CAPABILITY => Entry("CAPABILITY", STATE_ALL, STATE_NONE, STATE_NONE)
    case NOOP => Entry("NOOP", STATE_ALL, STATE_NONE, STATE_NONE)
    case LOGOUT => Entry("LOGOUT", STATE_ALL, STATE_LOGOUT, STATE_NONE)
    case AUTHENTICATE => Entry("AUTHENTICATE", STATE_NONAUTH, STATE_NONE, STATE_AUTH)
    case LOGIN => Entry("LOGIN", STATE_NONAUTH, STATE_NONE, STATE_AUTH)
    case SELECT => Entry("SELECT", STATE_AUTH + STATE_SEL, STATE_AUTH, STATE_SEL)
    case EXAMINE => Entry("EXAMINE", STATE_AUTH + STATE_SEL, STATE_AUTH, STATE_SEL)
    case CREATE => Entry("CREATE", STATE_AUTH + STATE_SEL, STATE_NONE, STATE_NONE)
    case DELETE => Entry("DELETE", STATE_AUTH + STATE_SEL, STATE_NONE, STATE_NONE)
    case RENAME => Entry("RENAME", STATE_AUTH + STATE_SEL, STATE_NONE, STATE_NONE)
    case SUBSCRIBE => Entry("SUBSCRIBE", STATE_AUTH + STATE_SEL, STATE_NONE, STATE_NONE)
    case UNSUBSCRIBE => Entry("UNSUBSCRIBE", STATE_AUTH + STATE_SEL, STATE_NONE, STATE_NONE)
    case LIST => Entry("LIST", STATE_AUTH + STATE_SEL, STATE_NONE, STATE_NONE)
    case LSUB => Entry("LSUB", STATE_AUTH + STATE_SEL, STATE_NONE, STATE_NONE)
    case STATUS => Entry("STATUS", STATE_AUTH + STATE_SEL, STATE_NONE, STATE_NONE)
    case APPEND => Entry("APPEND", STATE_AUTH + STATE_SEL, STATE_NONE, STATE_NONE)
    case CHECK => Entry("CHECK", STATE_SEL, STATE_NONE, STATE_NONE)
    case CLOSE => Entry("CLOSE", STATE_SEL, STATE_AUTH, STATE_AUTH)
    case UNSELECT => Entry("UNSELECT", STATE_SEL, STATE_AUTH, STATE_AUTH)
    case EXPUNGE => Entry("EXPUNGE", STATE_SEL, STATE_NONE, STATE_NONE)
    case SEARCH => Entry("SEARCH", STATE_SEL, STATE_NONE, STATE_NONE)
    case FETCH => Entry("FETCH", STATE_SEL, STATE_NONE, STATE_NONE)
    case STORE => Entry("STORE", STATE_SEL, STATE_NONE, STATE_NONE)
    case COPY => Entry("COPY", STATE_SEL, STATE_NONE, STATE_NONE)
    case UID => Entry("UID", STATE_SEL, STATE_NONE, STATE_NONE)
    case NAMESPACE => Entry("NAMESPACE", STATE_AUTH + STATE_SEL, STATE_NONE, STATE_NONE)
    case ID => Entry("ID", STATE_AUTH + STATE_SEL, STATE_NONE, STATE_NONE)
    case IDLE => Entry("IDLE", STATE_SEL, STATE_NONE, STATE_NONE)
    case STARTTLS => Entry("STARTTLS", STATE_NONAUTH, STATE_NONE, STATE_NONE)
  }

  /** `nullcommand`, for lines that name no command */
  const NULL_ENTRY: Entry := Entry("", STATE_NONE, STATE_NONE, STATE_NONE)

  datatype Line = Empty | TagOnly | Unknown | Known(c: Command)

  /** What `starttls_init` leaves of the configured modes. */
  datatype TlsMode = TlsNo | TlsOndemand | TlsRequired | TlsConnection

  datatype AuthResult = AuthNosup | AuthOk | AuthResp | AuthFail | AuthError

  /** What is decided outside the session: argument counts, user data base, handshakes,
      the file system, other programs. */
  datatype Luck = Luck(
    args: bool, user: bool, password: bool, setup: bool,
    auth: AuthResult, response: Resp, username: bool,
    tlsUp: bool, named: bool, openOk: bool, status: bool, closed: bool,
    rc: Resp, changed: bool, corrupted: bool)

  /** What is remembered of a run. */
  datatype Happening = SetupDone | TlsStarted

  const CAPA_STARTTLS: string := "STARTTLS"
  const CAPA_LOGINDISABLED: string := "LOGINDISABLED"
  const CAPA_XTLSREQUIRED: string := "XTLSREQUIRED"

  /** `mbox` is the identity of the open mailbox, and `table` that of the mailbox whose
      flags the table holds while it is valid.  `reply` is the last tagged response. */
  datatype View = View(
    state: nat, mbox: Option<nat>, table: Option<nat>, boxes: nat,
    tls: TlsMode, loginDisabled: bool, capa: seq<string>,
    reply: Resp, alive: bool, log: seq<Happening>)

  // ---------- the pieces of a command ----------

  /** imap4d_sync */
  function Synced(v: View, luck: Luck): View {
    if v.mbox.None? then v.(table := None)
    else if v.table.None? || luck.changed then
      if luck.corrupted then v.(alive := false) else v.(table := v.mbox)
    else v
  }

  /** io_format_completion_response */
  function Completed(v: View, e: Entry, rc: Resp, luck: Luck): View {
    var u := Synced(v, luck).(reply := rc);
    var next := if rc == RespOk then e.success else if e.failure <= u.state then e.failure else STATE_NONE;
    if !u.alive || next == STATE_NONE then u else u.(state := next)
  }

  /** mu_list_remove */
  function Without(capa: seq<string>, name: string): seq<string> {
    if capa == [] then []
    else if capa[0] == name then capa[1..]
    else [capa[0]] + Without(capa[1..], name)
  }

  /** tls_encryption_on */
  function Encrypted(v: View): View {
    v.(tls := TlsNo, loginDisabled := false,
       capa := Without(Without(Without(v.capa, CAPA_STARTTLS), CAPA_LOGINDISABLED), CAPA_XTLSREQUIRED))
  }

  function StartTls(v: View, e: Entry, luck: Luck): View {
    if v.tls == TlsNo || !luck.args then Completed(v, e, RespBad, luck)
    else
      var u := Completed(v, e, RespOk, luck);
      if !u.alive then u
      else if luck.tlsUp then Encrypted(u).(log := u.log + [TlsStarted])
      else u.(alive := false)
  }

  function Login(v: View, e: Entry, luck: Luck): View {
    if v.loginDisabled || v.tls == TlsRequired then Completed(v, e, RespNo, luck)
    else if !luck.args then Completed(v, e, RespBad, luck)
    else if !luck.user || !luck.password || !luck.setup then Completed(v, e, RespNo, luck)
    else Completed(v.(log := v.log + [SetupDone]), e, RespOk, luck)
  }

  /** A GSASL mechanism with a security layer sets the session up and answers OK itself
      (`AuthOk`); without a user name it has answered NO before. */
  function Authenticate(v: View, e: Entry, luck: Luck): View {
    if !luck.args then Completed(v, e, RespBad, luck)
    else if v.tls == TlsRequired then Completed(v, e, RespNo, luck)
    else match luck.auth
      case AuthOk =>
        if luck.username && luck.setup then Completed(v.(log := v.log + [SetupDone]), e, RespOk, luck)
        else Completed(v, e, RespNo, luck)
      case AuthResp =>
        if luck.response == RespOk && luck.username && luck.setup then
          Completed(v.(log := v.log + [SetupDone]), e, RespOk, luck)
        else Completed(v, e, RespNo, luck)
      case _ => Completed(v, e, RespNo, luck)
  }

  /** The implicit close of SELECT, and the synchronisation that drops the table. */
  function Dropped(v: View, luck: Luck): View {
    if v.mbox.Some? then Synced(v.(mbox := None), luck) else v
  }

  function OpenBox(u: View, e: Entry, luck: Luck): View {
    if !luck.named || !luck.openOk then Completed(u.(mbox := None), e, RespNo, luck)
    else
      var w := u.(mbox := Some(u.boxes), boxes := u.boxes + 1, state := STATE_SEL);
      if luck.status then Synced(w, luck).(reply := RespOk)
      else Completed(w.(mbox := None), e, RespNo, luck)
  }

  function Select(v: View, e: Entry, luck: Luck): View {
    if !luck.args then Completed(v, e, RespBad, luck) else OpenBox(Dropped(v, luck), e, luck)
  }

  function Close(v: View, e: Entry, luck: Luck): View {
    if !luck.args then Completed(v, e, RespBad, luck)
    else Completed(v.(mbox := None), e, if luck.closed then RespOk else RespNo, luck)
  }

  function Expunge(v: View, e: Entry, luck: Luck): View {
    if !luck.args then Completed(v, e, RespBad, luck)
    else
      var u := Synced(v.(table := None), luck);
      if !u.alive then u else Completed(u, e, RespOk, luck)
  }

  function Logout(v: View, e: Entry, luck: Luck): View {
    if !luck.args then Completed(v, e, RespBad, luck)
    else v.(mbox := None, alive := false, reply := RespOk)
  }

  /** The other commands answer, and leave the session as it is.  COPY may give its own
      answer (RespNone). */
  function Other(v: View, e: Entry, luck: Luck): View {
    if luck.rc == RespNone then v.(reply := RespNone) else Completed(v, e, luck.rc, luck)
  }

  function Handle(v: View, c: Command, luck: Luck): View {
    var e := EntryOf(c);
    match c
    case STARTTLS => StartTls(v, e, luck)
    case LOGIN => Login(v, e, luck)
    case AUTHENTICATE => Authenticate(v, e, luck)
    case SELECT => Select(v, e, luck)
    case EXAMINE => Select(v, e, luck)
    case CLOSE => Close(v, e, luck)
    case UNSELECT => Close(v, e, luck)
    case EXPUNGE => Expunge(v, e, luck)
    case LOGOUT => Logout(v, e, luck)
    case _ => Other(v, e, luck)
  }

  predicate Allowed(v: View, c: Command) {
    EntryOf(c).states == 0 || HasBit(EntryOf(c).states, v.state)
  }

  /** util_do_command */
  function Do(v: View, line: Line, luck: Luck): View {
    match line
    case Known(c) => if Allowed(v, c) then Handle(v, c, luck) else Completed(v, EntryOf(c), RespBad, luck)
    case _ => Completed(v, NULL_ENTRY, RespBad, luck)
  }

  /** One turn of the main loop. */
  function Turn(v: View, line: Line, before: Luck, luck: Luck, after: Luck): View {
    if !v.alive then v
    else
      var u := Synced(v, before);
      if !u.alive then u
      else
        var w := Do(u, line, luck);
        if !w.alive then w else Synced(w, after)
  }

  // ---------- the start of a session ----------

  datatype Preauth = NoPreauth | PreauthFailed | PreauthDone

  const BASE_CAPA: seq<string> := ["IMAP4rev1", "NAMESPACE", "ID", "IDLE", "LITERAL+", "UNSELECT"]

  function LoginCapa(loginDisabled: bool): seq<string> {
    if loginDisabled then [CAPA_LOGINDISABLED] else []
  }

  function TlsCapa(mode: TlsMode): seq<string> {
    if mode == TlsRequired then [CAPA_XTLSREQUIRED] + [CAPA_STARTTLS]
    else if mode == TlsOndemand then [CAPA_STARTTLS] else []
  }

  function StartCapa(mode: TlsMode, loginDisabled: bool): seq<string> {
    BASE_CAPA + LoginCapa(loginDisabled) + TlsCapa(mode)
  }

  function Start(mode: TlsMode, loginDisabled: bool, preauth: Preauth): View {
    var v := View(STATE_NONAUTH, None, None, 0, mode, loginDisabled, StartCapa(mode, loginDisabled), RespOk, true, []);
    var u := if mode == TlsConnection then Encrypted(v) else v;
    if preauth == PreauthDone then u.(state := STATE_AUTH, log := [SetupDone]) else u
  }

  datatype Input = Input(line: Line, before: Luck, luck: Luck, after: Luck)

  function Run(v: View, inputs: seq<Input>): View {
    if inputs == [] then v
    else
      var n := |inputs| - 1;
      var i := inputs[n];
      Turn(Run(v, inputs[..n]), i.line, i.before, i.luck, i.after)
  }

  // ---------- what every run keeps ----------

  predicate Offered(mode: TlsMode) {
    mode == TlsOndemand || mode == TlsRequired
  }

  function B(b: bool): nat {
    if b then 1 else 0
  }

  /** What CAPABILITY tells of TLS and LOGIN, each at most once. */
  ghost predicate Advertised(v: View) {
    && multiset(v.capa)[CAPA_STARTTLS] == B(Offered(v.tls))
    && multiset(v.capa)[CAPA_XTLSREQUIRED] == B(v.tls == TlsRequired)
    && multiset(v.capa)[CAPA_LOGINDISABLED] == B(v.loginDisabled)
  }

  ghost predicate Inv(v: View) {
    && (v.state == STATE_NONAUTH || v.state == STATE_AUTH || v.state == STATE_SEL)
    && (v.alive && v.state == STATE_SEL ==> v.mbox.Some?)
    && (v.state == STATE_NONAUTH ==> v.mbox.None?)
    && (v.table.Some? && v.alive ==> v.table == v.mbox)
    && (v.state != STATE_NONAUTH ==> SetupDone in v.log)
    && Advertised(v)
    && v.tls != TlsConnection
    && multiset(v.log)[TlsStarted] <= 1
    && (TlsStarted in v.log ==> v.tls == TlsNo)
  }

  /** Inv after a command; STARTTLS aside, a command keeps TLS as it is. */
  ghost predicate Kept(v: View, u: View) {
    && Inv(u)
    && u.tls == v.tls && u.capa == v.capa && u.loginDisabled == v.loginDisabled
  }

  lemma SyncedKeeps(v: View, luck: Luck)
    requires Inv(v) && v.alive
    ensures Kept(v, Synced(v, luck))
  {
  }

  /** A completion whose new state is harmless. */
  lemma CompletedKeeps(v: View, e: Entry, rc: Resp, luck: Luck)
    requires Inv(v) && v.alive
    requires e.failure == STATE_NONE || e.failure == STATE_AUTH || e.failure == STATE_LOGOUT
    requires rc == RespOk ==> e.success == STATE_NONE || (e.success == STATE_AUTH && SetupDone in v.log)
    ensures Kept(v, Completed(v, e, rc, luck))
    ensures rc != RespOk ==> Completed(v, e, rc, luck).state <= v.state
    ensures Completed(v, e, rc, luck).reply == rc
  {
  }

  /** The commands without a handler of their own here. */
  predicate Plain(c: Command) {
    !(c == STARTTLS || c == LOGIN || c == AUTHENTICATE || c == SELECT || c == EXAMINE || c == CLOSE || c == UNSELECT
      || c == EXPUNGE || c == LOGOUT)
  }

  lemma Entries(c: Command)
    ensures EntryOf(c).failure == STATE_NONE || EntryOf(c).failure == STATE_AUTH || EntryOf(c).failure == STATE_LOGOUT
    ensures c == LOGIN || c == AUTHENTICATE || c == CLOSE || c == UNSELECT ==> EntryOf(c).success == STATE_AUTH
    ensures Plain(c) || c == STARTTLS || c == EXPUNGE || c == LOGOUT <==> EntryOf(c).success == STATE_NONE
  {
  }

  lemma RefusedKeeps(v: View, c: Command, rc: Resp, luck: Luck)
    requires Inv(v) && v.alive && rc != RespOk
    ensures Kept(v, Completed(v, EntryOf(c), rc, luck)) && Completed(v, EntryOf(c), rc, luck).reply == rc
    ensures Completed(v, EntryOf(c), rc, luck).state <= v.state
  {
    hide EntryOf, Inv, Kept, Completed;
    Entries(c);
    CompletedKeeps(v, EntryOf(c), rc, luck);
  }

  // ---------- TLS ----------

  lemma {:induction false} WithoutCount(capa: seq<string>, name: string, x: string)
    ensures multiset(Without(capa, name))[x]
         == if x == name && multiset(capa)[x] > 0 then multiset(capa)[x] - 1 else multiset(capa)[x]
  {
    if capa != [] {
      assert capa == [capa[0]] + capa[1..];
      WithoutCount(capa[1..], name, x);
    }
  }

  lemma NamesDiffer()
    ensures CAPA_STARTTLS != CAPA_LOGINDISABLED && CAPA_STARTTLS != CAPA_XTLSREQUIRED
    ensures CAPA_LOGINDISABLED != CAPA_XTLSREQUIRED
  {
    assert CAPA_LOGINDISABLED[0] == 'L' && CAPA_XTLSREQUIRED[0] == 'X' && CAPA_STARTTLS[0] == 'S';
  }

  lemma EncryptedCapa(v: View)
    requires Advertised(v)
    ensures Advertised(Encrypted(v))
  {
    hide Without;
    NamesDiffer();
    EncryptedCount(v, CAPA_STARTTLS);
    EncryptedCount(v, CAPA_LOGINDISABLED);
    EncryptedCount(v, CAPA_XTLSREQUIRED);
  }

  lemma EncryptedCount(v: View, name: string)
    requires name == CAPA_STARTTLS || name == CAPA_LOGINDISABLED || name == CAPA_XTLSREQUIRED
    requires multiset(v.capa)[name] <= 1
    ensures multiset(Encrypted(v).capa)[name] == 0
  {
    hide Without;
    NamesDiffer();
    var a := Without(v.capa, CAPA_STARTTLS);
    var b := Without(a, CAPA_LOGINDISABLED);
    WithoutCount(v.capa, CAPA_STARTTLS, name);
    WithoutCount(a, CAPA_LOGINDISABLED, name);
    WithoutCount(b, CAPA_XTLSREQUIRED, name);
  }

  lemma EncryptedKeeps(v: View)
    requires Inv(v) && v.tls != TlsNo
    ensures Inv(Encrypted(v).(log := v.log + [TlsStarted]))
  {
    hide Without, Advertised;
    EncryptedCapa(v);
    SameAdvert(Encrypted(v), v.log + [TlsStarted]);
    assert multiset(v.log + [TlsStarted]) == multiset(v.log) + multiset([TlsStarted]);
    assert TlsStarted !in v.log;
  }

  lemma SameAdvert(v: View, log: seq<Happening>)
    ensures Advertised(v) ==> Advertised(v.(log := log))
  {
  }

  lemma StartTlsKeeps(v: View, luck: Luck)
    requires Inv(v) && v.alive
    ensures Inv(StartTls(v, EntryOf(STARTTLS), luck)) && StartTls(v, EntryOf(STARTTLS), luck).state <= v.state
  {
    hide EntryOf, Completed, Inv, Encrypted;
    if v.tls == TlsNo || !luck.args {
      RefusedKeeps(v, STARTTLS, RespBad, luck);
    } else {
      NegotiationKeeps(v, luck);
    }
  }

  lemma NegotiationKeeps(v: View, luck: Luck)
    requires Inv(v) && v.alive && v.tls != TlsNo && luck.args
    ensures Inv(StartTls(v, EntryOf(STARTTLS), luck)) && StartTls(v, EntryOf(STARTTLS), luck).state <= v.state
  {
    hide EntryOf, Completed, Inv, Encrypted;
    var e := EntryOf(STARTTLS);
    Entries(STARTTLS);
    CompletedKeeps(v, e, RespOk, luck);
    SameState(v, e, luck);
    var u := Completed(v, e, RespOk, luck);
    if u.alive {
      if luck.tlsUp {
        EncryptedKeeps(u);
        EncryptedState(u);
      } else {
        Ended(u);
      }
    }
  }

  lemma EncryptedState(v: View)
    ensures Encrypted(v).state == v.state && Encrypted(v).log == v.log
  {
  }

  lemma Ended(v: View)
    requires Inv(v)
    ensures Inv(v.(alive := false))
  {
  }

  lemma SameState(v: View, e: Entry, luck: Luck)
    requires e.success == STATE_NONE
    ensures Completed(v, e, RespOk, luck).state == v.state
  {
  }

  // ---------- logging in ----------

  lemma NotedKeeps(v: View)
    requires Inv(v)
    ensures Inv(v.(log := v.log + [SetupDone])) && SetupDone in v.log + [SetupDone]
  {
    assert multiset(v.log + [SetupDone]) == multiset(v.log) + multiset([SetupDone]);
  }

  /** The two ways a user gets in. */
  lemma AdmittedKeeps(v: View, c: Command, luck: Luck)
    requires Inv(v) && v.alive && (c == LOGIN || c == AUTHENTICATE)
    ensures Kept(v, Completed(v.(log := v.log + [SetupDone]), EntryOf(c), RespOk, luck))
    ensures Completed(v.(log := v.log + [SetupDone]), EntryOf(c), RespOk, luck).reply == RespOk
  {
    hide EntryOf, Completed, Inv;
    Entries(c);
    NotedKeeps(v);
    CompletedKeeps(v.(log := v.log + [SetupDone]), EntryOf(c), RespOk, luck);
  }

  lemma LoginKeeps(v: View, luck: Luck)
    requires Inv(v) && v.alive
    ensures Kept(v, Login(v, EntryOf(LOGIN), luck))
    ensures Login(v, EntryOf(LOGIN), luck).reply != RespOk ==> Login(v, EntryOf(LOGIN), luck).state <= v.state
  {
    hide EntryOf, Completed, Inv, Kept;
    RefusedKeeps(v, LOGIN, RespNo, luck);
    RefusedKeeps(v, LOGIN, RespBad, luck);
    AdmittedKeeps(v, LOGIN, luck);
  }

  lemma AuthenticateKeeps(v: View, luck: Luck)
    requires Inv(v) && v.alive
    ensures var u := Authenticate(v, EntryOf(AUTHENTICATE), luck);
            Kept(v, u) && (u.reply != RespOk ==> u.state <= v.state)
  {
    hide EntryOf, Completed, Inv, Kept;
    RefusedKeeps(v, AUTHENTICATE, RespNo, luck);
    RefusedKeeps(v, AUTHENTICATE, RespBad, luck);
    AdmittedKeeps(v, AUTHENTICATE, luck);
  }

  // ---------- mailboxes ----------

  /** Nothing is selected any more, and the table went with the mailbox. */
  lemma DroppedKeeps(v: View, luck: Luck)
    requires Inv(v) && v.alive && v.state != STATE_NONAUTH
    ensures var u := Dropped(v, luck);
            && u == v.(mbox := None, table := None) && Inv(u.(state := STATE_AUTH))
            && forall n :: Inv(u.(mbox := Some(n), state := STATE_SEL, boxes := v.boxes + 1))
    ensures v.state == STATE_AUTH || v.state == STATE_SEL
  {
  }

  /** A failed SELECT leaves the authenticated state. */
  lemma FailedSelect(v: View, c: Command, luck: Luck)
    requires Inv(v.(state := STATE_AUTH)) && v.mbox.None? && v.alive && (c == SELECT || c == EXAMINE)
    requires v.state == STATE_AUTH || v.state == STATE_SEL
    ensures Completed(v, EntryOf(c), RespNo, luck) == v.(table := None, reply := RespNo, state := STATE_AUTH)
  {
  }

  lemma SelectKeeps(v: View, c: Command, luck: Luck)
    requires Inv(v) && v.alive && v.state != STATE_NONAUTH && (c == SELECT || c == EXAMINE)
    ensures var u := Select(v, EntryOf(c), luck);
            Kept(v, u) && (u.reply != RespOk ==> u.state <= v.state)
  {
    hide EntryOf, Completed, Synced, Inv, Kept, OpenBox, Dropped;
    RefusedKeeps(v, c, RespBad, luck);
    if luck.args {
      DroppedKeeps(v, luck);
      OpenKeeps(v, Dropped(v, luck), c, luck);
    }
  }

  /** From a session whose mailbox was dropped. */
  lemma OpenKeeps(v: View, u: View, c: Command, luck: Luck)
    requires u == v.(mbox := None, table := None) && u.alive && (c == SELECT || c == EXAMINE)
    requires v.state == STATE_AUTH || v.state == STATE_SEL
    requires Inv(u.(state := STATE_AUTH))
              && forall n :: Inv(u.(mbox := Some(n), state := STATE_SEL, boxes := v.boxes + 1))
    ensures var w := OpenBox(u, EntryOf(c), luck);
            Kept(v, w) && (w.reply != RespOk ==> w.state <= v.state)
  {
    hide EntryOf, Completed, Synced, Inv;
    if !luck.named || !luck.openOk {
      FailedSelect(u.(mbox := None), c, luck);
      ReplyFree(u.(state := STATE_AUTH));
    } else {
      var w := u.(mbox := Some(u.boxes), boxes := u.boxes + 1, state := STATE_SEL);
      if luck.status {
        SyncedKeeps(w, luck);
        SyncedState(w, luck);
        ReplyFree(Synced(w, luck));
      } else {
        ReadyToFail(w);
        FailedSelect(w.(mbox := None), c, luck);
        ReplyFree(w.(mbox := None, table := None, state := STATE_AUTH));
      }
    }
  }

  lemma ReadyToFail(w: View)
    requires Inv(w) && w.state == STATE_SEL
    ensures Inv(w.(mbox := None, state := STATE_AUTH)) || w.table.Some?
    ensures Inv(w.(mbox := None, table := None, state := STATE_AUTH))
  {
  }

  lemma SyncedState(v: View, luck: Luck)
    ensures Synced(v, luck).state == v.state && Synced(v, luck).log == v.log
  {
  }

  /** The reply does not matter to the invariant. */
  lemma ReplyFree(v: View)
    requires Inv(v)
    ensures forall r :: Inv(v.(reply := r))
  {
  }

  lemma CloseKeeps(v: View, c: Command, luck: Luck)
    requires Inv(v) && v.alive && v.state == STATE_SEL && (c == CLOSE || c == UNSELECT)
    ensures Kept(v, Close(v, EntryOf(c), luck)) && Close(v, EntryOf(c), luck).state <= v.state
  {
    RefusedKeeps(v, c, RespBad, luck);
  }

  lemma ExpungeKeeps(v: View, luck: Luck)
    requires Inv(v) && v.alive
    ensures var u := Expunge(v, EntryOf(EXPUNGE), luck);
            Kept(v, u) && u.state <= v.state
  {
    hide EntryOf, Completed, Synced, Inv;
    RefusedKeeps(v, EXPUNGE, RespBad, luck);
    Invalidated(v);
    var u := Synced(v.(table := None), luck);
    SyncedKeeps(v.(table := None), luck);
    SyncedState(v.(table := None), luck);
    if luck.args && u.alive {
      Entries(EXPUNGE);
      CompletedKeeps(u, EntryOf(EXPUNGE), RespOk, luck);
      SameState(u, EntryOf(EXPUNGE), luck);
    }
  }

  lemma Invalidated(v: View)
    requires Inv(v)
    ensures Inv(v.(table := None))
  {
  }

  lemma OtherKeeps(v: View, c: Command, luck: Luck)
    requires Inv(v) && v.alive && EntryOf(c).success == STATE_NONE
    ensures Kept(v, Other(v, EntryOf(c), luck)) && Other(v, EntryOf(c), luck).state <= v.state
  {
    hide EntryOf, Completed, Inv;
    Entries(c);
    ReplyFree(v);
    SameState(v, EntryOf(c), luck);
    CompletedKeeps(v, EntryOf(c), luck.rc, luck);
  }

  // ---------- commands, turns and runs ----------

  lemma AllowedStates(v: View, c: Command)
    requires Inv(v) && Allowed(v, c)
    ensures c == STARTTLS || c == LOGIN || c == AUTHENTICATE ==> v.state == STATE_NONAUTH
    ensures c == SELECT || c == EXAMINE ==> v.state != STATE_NONAUTH
    ensures EntryOf(c).states == STATE_SEL ==> v.state == STATE_SEL
  {
  }

  lemma PlainHandle(v: View, c: Command, luck: Luck)
    requires Plain(c)
    ensures Handle(v, c, luck) == Other(v, EntryOf(c), luck)
  {
    hide EntryOf, Other;
  }

  /** The handlers of the other commands. */
  lemma OwnHandle(v: View, c: Command, luck: Luck)
    ensures c == STARTTLS ==> Handle(v, c, luck) == StartTls(v, EntryOf(c), luck)
    ensures c == LOGIN ==> Handle(v, c, luck) == Login(v, EntryOf(c), luck)
    ensures c == AUTHENTICATE ==> Handle(v, c, luck) == Authenticate(v, EntryOf(c), luck)
    ensures c == LOGOUT ==> Handle(v, c, luck) == Logout(v, EntryOf(c), luck)
  {
    hide EntryOf, StartTls, Login, Authenticate, Select, Close, Expunge, Logout;
  }

  lemma OwnMailboxHandle(v: View, c: Command, luck: Luck)
    ensures c == SELECT || c == EXAMINE ==> Handle(v, c, luck) == Select(v, EntryOf(c), luck)
    ensures c == CLOSE || c == UNSELECT ==> Handle(v, c, luck) == Close(v, EntryOf(c), luck)
    ensures c == EXPUNGE ==> Handle(v, c, luck) == Expunge(v, EntryOf(c), luck)
  {
    hide EntryOf, StartTls, Login, Authenticate, Select, Close, Expunge, Logout;
  }

  /** What a command that is allowed in the present state does. */
  lemma HandleKeeps(v: View, c: Command, luck: Luck)
    requires Inv(v) && v.alive && Allowed(v, c)
    ensures Inv(Handle(v, c, luck)) && (Handle(v, c, luck).reply != RespOk ==> Handle(v, c, luck).state <= v.state)
  {
    hide Inv, EntryOf, Allowed, StartTls, Login, Authenticate, Select, Close, Expunge, Logout, Other, Completed, Handle;
    AllowedStates(v, c);
    OwnHandle(v, c, luck);
    OwnMailboxHandle(v, c, luck);
    if Plain(c) {
      Entries(c);
      PlainHandle(v, c, luck);
      OtherKeeps(v, c, luck);
    } else if c == STARTTLS {
      StartTlsKeeps(v, luck);
    } else if c == LOGIN {
      LoginKeeps(v, luck);
    } else if c == AUTHENTICATE {
      AuthenticateKeeps(v, luck);
    } else if c == SELECT || c == EXAMINE {
      SelectKeeps(v, c, luck);
    } else if c == EXPUNGE {
      ExpungeKeeps(v, luck);
    } else if c == LOGOUT {
      LogoutKeeps(v, luck);
    } else {
      SelectedOnly(c);
      CloseKeeps(v, c, luck);
    }
  }

  /** No command breaks the invariant, and none that was refused or failed raises the
      state. */
  lemma DoKeeps(v: View, line: Line, luck: Luck)
    requires Inv(v) && v.alive
    ensures Inv(Do(v, line, luck))
    ensures Do(v, line, luck).reply != RespOk ==> Do(v, line, luck).state <= v.state
  {
    hide Inv, EntryOf, Allowed, Handle, Completed;
    CompletedKeeps(v, NULL_ENTRY, RespBad, luck);
    if line.Known? {
      RefusedKeeps(v, line.c, RespBad, luck);
      if Allowed(v, line.c) {
        HandleKeeps(v, line.c, luck);
      }
    }
  }

  /** The commands that use the open mailbox are those of the selected state. */
  predicate UsesMailbox(c: Command) {
    c == CLOSE || c == UNSELECT || c == EXPUNGE || c == SEARCH || c == FETCH || c == STORE || c == COPY
    || c == UID || c == CHECK || c == IDLE
  }

  lemma SelectedOnly(c: Command)
    ensures UsesMailbox(c) <==> EntryOf(c).states == STATE_SEL
  {
  }

  lemma LogoutKeeps(v: View, luck: Luck)
    requires Inv(v) && v.alive
    ensures Inv(Logout(v, EntryOf(LOGOUT), luck)) && Logout(v, EntryOf(LOGOUT), luck).state <= v.state
  {
    RefusedKeeps(v, LOGOUT, RespBad, luck);
  }

  lemma TurnKeeps(v: View, i: Input)
    requires Inv(v)
    ensures Inv(Turn(v, i.line, i.before, i.luck, i.after))
  {
    hide Inv, Do, Synced;
    if v.alive {
      SyncedKeeps(v, i.before);
      var u := Synced(v, i.before);
      if u.alive {
        DoKeeps(u, i.line, i.luck);
        var w := Do(u, i.line, i.luck);
        if w.alive {
          SyncedKeeps(w, i.after);
        }
      }
    }
  }

  lemma BaseCapa(name: string)
    requires name == CAPA_STARTTLS || name == CAPA_LOGINDISABLED || name == CAPA_XTLSREQUIRED
    ensures multiset(BASE_CAPA)[name] == 0
  {
    forall i | 0 <= i < |BASE_CAPA| ensures BASE_CAPA[i] != name {
      assert |BASE_CAPA[i]| != |name| || BASE_CAPA[i][0] != name[0];
    }
  }

  lemma OptionalCapa(mode: TlsMode, loginDisabled: bool)
    ensures var l, t := multiset(LoginCapa(loginDisabled)), multiset(TlsCapa(mode));
            && l[CAPA_STARTTLS] == l[CAPA_XTLSREQUIRED] == t[CAPA_LOGINDISABLED] == 0
            && l[CAPA_LOGINDISABLED] == B(loginDisabled)
            && t[CAPA_STARTTLS] == B(Offered(mode)) && t[CAPA_XTLSREQUIRED] == B(mode == TlsRequired)
  {
    NamesDiffer();
  }

  lemma StartCounts(mode: TlsMode, loginDisabled: bool)
    ensures var c := multiset(StartCapa(mode, loginDisabled));
            && c[CAPA_STARTTLS] == B(Offered(mode))
            && c[CAPA_XTLSREQUIRED] == B(mode == TlsRequired)
            && c[CAPA_LOGINDISABLED] == B(loginDisabled)
  {
    hide LoginCapa, TlsCapa, Offered;
    BaseCapa(CAPA_STARTTLS);
    BaseCapa(CAPA_XTLSREQUIRED);
    BaseCapa(CAPA_LOGINDISABLED);
    OptionalCapa(mode, loginDisabled);
    CountJoined(BASE_CAPA, LoginCapa(loginDisabled), TlsCapa(mode));
  }

  lemma CountJoined(a: seq<string>, b: seq<string>, c: seq<string>)
    ensures multiset(a + b + c) == multiset(a) + multiset(b) + multiset(c)
  {
  }

  lemma StartAdvert(mode: TlsMode, loginDisabled: bool, preauth: Preauth)
    ensures Advertised(Start(mode, loginDisabled, preauth))
  {
    hide StartCapa, Without;
    StartCounts(mode, loginDisabled);
    var v := View(STATE_NONAUTH, None, None, 0, mode, loginDisabled, StartCapa(mode, loginDisabled), RespOk, true, []);
    if mode == TlsConnection {
      EncryptedCapa(v);
    }
  }

  lemma {:induction false} StartKeeps(mode: TlsMode, loginDisabled: bool, preauth: Preauth)
    ensures Inv(Start(mode, loginDisabled, preauth))
  {
    hide StartCapa, Without, Advertised;
    StartAdvert(mode, loginDisabled, preauth);
    assert SetupDone in [SetupDone];
  }

  lemma {:induction false} RunKeeps(v: View, inputs: seq<Input>)
    requires Inv(v)
    ensures Inv(Run(v, inputs))
  {
    hide Inv, Turn;
    if inputs != [] {
      var n := |inputs| - 1;
      RunKeeps(v, inputs[..n]);
      TurnKeeps(Run(v, inputs[..n]), inputs[n]);
    }
  }

  /** What the invariant says to the outside. */
  lemma InvSound(v: View)
    requires Inv(v)
    ensures v.alive && v.state == STATE_SEL ==> v.mbox.Some?
    ensures v.alive && v.table.Some? ==> v.table == v.mbox
    ensures v.state == STATE_AUTH || v.state == STATE_SEL ==> SetupDone in v.log
    ensures CAPA_STARTTLS in v.capa <==> v.tls == TlsOndemand || v.tls == TlsRequired
    ensures CAPA_XTLSREQUIRED in v.capa <==> v.tls == TlsRequired
    ensures CAPA_LOGINDISABLED in v.capa <==> v.loginDisabled
    ensures multiset(v.log)[TlsStarted] <= 1
  {
  }

  /** Section 3 of RFC 3501, over all runs: a selected state has an open mailbox, nobody
      is authenticated without an earlier session setup, and a valid flag table is that
      of the open mailbox.  STARTTLS is advertised while the mode asks for it, and no
      longer once it was done, which is at most once. */
  lemma EveryRun(mode: TlsMode, loginDisabled: bool, preauth: Preauth, inputs: seq<Input>)
    ensures var v := Run(Start(mode, loginDisabled, preauth), inputs);
            && (v.alive && v.state == STATE_SEL ==> v.mbox.Some?)
            && (v.state == STATE_AUTH || v.state == STATE_SEL ==> SetupDone in v.log)
            && (v.alive && v.table.Some? ==> v.table == v.mbox)
            && (CAPA_STARTTLS in v.capa <==> v.tls == TlsOndemand || v.tls == TlsRequired)
            && (CAPA_XTLSREQUIRED in v.capa <==> v.tls == TlsRequired)
            && (CAPA_LOGINDISABLED in v.capa <==> v.loginDisabled)
            && multiset(v.log)[TlsStarted] <= 1
  {
    hide Start, Run, Inv;
    StartKeeps(mode, loginDisabled, preauth);
    RunKeeps(Start(mode, loginDisabled, preauth), inputs);
    InvSound(Run(Start(mode, loginDisabled, preauth), inputs));
  }

  /** A refused or failed command never raises the state, in any state a run can reach;
      and a command that works on the mailbox finds one. */
  lemma EveryCommand(mode: TlsMode, loginDisabled: bool, preauth: Preauth, inputs: seq<Input>,
                                        before: Luck, line: Line, luck: Luck)
    ensures var v := Synced(Run(Start(mode, loginDisabled, preauth), inputs), before);
            v.alive ==>
              && (Do(v, line, luck).reply != RespOk ==> Do(v, line, luck).state <= v.state)
              && (line.Known? && UsesMailbox(line.c) && Allowed(v, line.c) ==> v.mbox.Some?)
  {
    hide Start, Run, Do, UsesMailbox, Synced, EntryOf;
    var u := Run(Start(mode, loginDisabled, preauth), inputs);
    StartKeeps(mode, loginDisabled, preauth);
    RunKeeps(Start(mode, loginDisabled, preauth), inputs);
    if Synced(u, before).alive {
      AliveBefore(u, before);
      SyncedKeeps(u, before);
      DoKeeps(Synced(u, before), line, luck);
      if line.Known? && Allowed(Synced(u, before), line.c) {
        SelectedOnly(line.c);
        AllowedStates(Synced(u, before), line.c);
      }
    }
  }

  lemma AliveBefore(v: View, luck: Luck)
    requires Synced(v, luck).alive
    ensures v.alive
  {
  }

  // ---------- TLS when it is required ----------

  /** How the record of a run grows. */
  ghost predicate Grows(v: View, u: View) {
    || (u.log == v.log && u.tls == v.tls && u.capa == v.capa)
    || (u.log == v.log + [TlsStarted] && u.tls == TlsNo && u.capa == Encrypted(v).capa)
    || (u.log == v.log + [SetupDone] && u.tls == v.tls != TlsRequired && u.capa == v.capa)
  }

  lemma CompletedLog(v: View, e: Entry, rc: Resp, luck: Luck)
    ensures Completed(v, e, rc, luck).log == v.log && Completed(v, e, rc, luck).tls == v.tls
    ensures Completed(v, e, rc, luck).capa == v.capa
  {
  }

  lemma SyncedLog(v: View, luck: Luck)
    ensures Synced(v, luck).log == v.log && Synced(v, luck).tls == v.tls && Synced(v, luck).capa == v.capa
  {
  }

  lemma TlsGrows(v: View, e: Entry, luck: Luck)
    ensures Grows(v, StartTls(v, e, luck))
  {
    hide Completed;
    CompletedLog(v, e, RespBad, luck);
    CompletedLog(v, e, RespOk, luck);
  }

  lemma LoginGrows(v: View, e: Entry, luck: Luck)
    ensures Grows(v, Login(v, e, luck))
  {
    hide Completed;
    CompletedLog(v, e, RespBad, luck);
    CompletedLog(v, e, RespNo, luck);
    CompletedLog(v.(log := v.log + [SetupDone]), e, RespOk, luck);
  }

  lemma AuthenticateGrows(v: View, e: Entry, luck: Luck)
    ensures Grows(v, Authenticate(v, e, luck))
  {
    hide Completed;
    CompletedLog(v, e, RespBad, luck);
    CompletedLog(v, e, RespNo, luck);
    CompletedLog(v.(log := v.log + [SetupDone]), e, RespOk, luck);
  }

  lemma SelectGrows(v: View, e: Entry, luck: Luck)
    ensures Grows(v, Select(v, e, luck)) && Grows(v, Close(v, e, luck)) && Grows(v, Expunge(v, e, luck))
  {
    hide Completed, Synced, OpenBox;
    CompletedLog(v, e, RespBad, luck);
    CompletedLog(v.(mbox := None), e, if luck.closed then RespOk else RespNo, luck);
    SyncedLog(v.(table := None), luck);
    CompletedLog(Synced(v.(table := None), luck), e, RespOk, luck);
    SyncedLog(v.(mbox := None), luck);
    OpenBoxLog(Dropped(v, luck), e, luck);
  }

  lemma OpenBoxLog(u: View, e: Entry, luck: Luck)
    ensures OpenBox(u, e, luck).log == u.log && OpenBox(u, e, luck).tls == u.tls && OpenBox(u, e, luck).capa == u.capa
  {
    hide Completed, Synced;
    var w := u.(mbox := Some(u.boxes), boxes := u.boxes + 1, state := STATE_SEL);
    CompletedLog(u.(mbox := None), e, RespNo, luck);
    CompletedLog(w.(mbox := None), e, RespNo, luck);
    SyncedLog(w, luck);
  }

  lemma HandleGrows(v: View, c: Command, luck: Luck)
    ensures Grows(v, Handle(v, c, luck))
  {
    hide EntryOf, StartTls, Login, Authenticate, Select, Close, Expunge, Completed, Grows;
    var e := EntryOf(c);
    if Plain(c) {
      hide Handle;
      PlainHandle(v, c, luck);
      OtherGrows(v, e, luck);
    } else {
      OtherGrows(v, e, luck);
      TlsGrows(v, e, luck);
      LoginGrows(v, e, luck);
      AuthenticateGrows(v, e, luck);
      SelectGrows(v, e, luck);
    }
  }

  lemma OtherGrows(v: View, e: Entry, luck: Luck)
    ensures Grows(v, Other(v, e, luck)) && Grows(v, Logout(v, e, luck))
  {
    hide Completed, Encrypted;
    CompletedLog(v, e, RespBad, luck);
    CompletedLog(v, e, luck.rc, luck);
  }

  lemma TurnGrows(v: View, i: Input)
    ensures Grows(v, Turn(v, i.line, i.before, i.luck, i.after))
  {
    hide Handle, Synced, Completed, EntryOf, Allowed;
    SyncedLog(v, i.before);
    var u := Synced(v, i.before);
    var w := Do(u, i.line, i.luck);
    if i.line.Known? {
      HandleGrows(u, i.line.c, i.luck);
      CompletedLog(u, EntryOf(i.line.c), RespBad, i.luck);
    } else {
      CompletedLog(u, NULL_ENTRY, RespBad, i.luck);
    }
    SyncedLog(w, i.after);
  }

  ghost predicate TlsFirst(v: View) {
    if v.log == [] then v.tls == TlsRequired else v.log[0] == TlsStarted
  }

  /** With TLS required and no preauthentication, whoever leaves the non-authenticated
      state has negotiated TLS before: it is the first thing that happened. */
  lemma {:induction false} RequiredTls(loginDisabled: bool, preauth: Preauth, inputs: seq<Input>)
    requires preauth != PreauthDone
    ensures var v := Run(Start(TlsRequired, loginDisabled, preauth), inputs);
            TlsFirst(v) && (v.state != STATE_NONAUTH ==> v.log != [] && v.log[0] == TlsStarted)
  {
    hide Turn, Inv, StartCapa;
    var start := Start(TlsRequired, loginDisabled, preauth);
    StartKeeps(TlsRequired, loginDisabled, preauth);
    RunKeeps(start, inputs);
    InvSetUp(Run(start, inputs));
    if inputs != [] {
      var n := |inputs| - 1;
      RequiredTls(loginDisabled, preauth, inputs[..n]);
      TurnGrows(Run(start, inputs[..n]), inputs[n]);
    }
  }

  lemma InvSetUp(v: View)
    requires Inv(v)
    ensures v.state != STATE_NONAUTH ==> v.log != []
  {
  }

  /** STARTTLS is accepted exactly while it is advertised. */
  lemma AcceptedIfAdvertised(v: View, luck: Luck)
    requires Inv(v) && luck.args
    ensures StartTls(v, EntryOf(STARTTLS), luck).reply == RespOk <==> CAPA_STARTTLS in v.capa
  {
    hide EntryOf;
  }

  // ---------- LOGIN when it is disabled ----------

  /** Nothing happened yet, or TLS did. */
  ghost predicate Shut(v: View) {
    (v.loginDisabled && v.log == []) || TlsStarted in v.log
  }

  lemma CompletedShut(v: View, e: Entry, rc: Resp, luck: Luck)
    requires Shut(v)
    ensures Shut(Completed(v, e, rc, luck))
  {
  }

  lemma SyncedShut(v: View, luck: Luck)
    requires Shut(v)
    ensures Shut(Synced(v, luck))
  {
  }

  lemma LaterShut(v: View, u: View)
    requires TlsStarted in v.log && Grows(v, u)
    ensures Shut(u)
  {
    assert TlsStarted in v.log + [SetupDone];
  }

  lemma MailboxShut(v: View, e: Entry, luck: Luck)
    requires v.loginDisabled && v.log == []
    ensures Shut(Select(v, e, luck)) && Shut(Close(v, e, luck)) && Shut(Expunge(v, e, luck)) && Shut(Logout(v, e, luck))
  {
  }

  lemma {:induction false} EarlyShut(v: View, c: Command, luck: Luck)
    requires v.loginDisabled && v.log == [] && c != AUTHENTICATE
    ensures Shut(Handle(v, c, luck))
  {
    hide Completed, StartTls, Login, Select, Close, Expunge, Logout, Other, EntryOf, Shut;
    var e := EntryOf(c);
    MailboxShut(v, e, luck);
    RefusalShut(v, e, luck);
    TlsShut(v, e, luck);
    if Plain(c) {
      hide Handle;
      PlainHandle(v, c, luck);
    }
  }

  /** LOGIN is refused while it is disabled. */
  lemma RefusalShut(v: View, e: Entry, luck: Luck)
    requires v.loginDisabled && v.log == []
    ensures Shut(Login(v, e, luck)) && Shut(Other(v, e, luck))
  {
    hide Completed;
    CompletedShut(v, e, RespNo, luck);
    CompletedShut(v, e, luck.rc, luck);
  }

  lemma TlsShut(v: View, e: Entry, luck: Luck)
    requires v.loginDisabled && v.log == []
    ensures Shut(StartTls(v, e, luck))
  {
    hide Completed, Without;
    CompletedShut(v, e, RespBad, luck);
    CompletedShut(v, e, RespOk, luck);
    var u := Completed(v, e, RespOk, luck);
    assert TlsStarted in u.log + [TlsStarted];
  }

  lemma TurnShut(v: View, i: Input)
    requires Shut(v) && i.line != Known(AUTHENTICATE)
    ensures Shut(Turn(v, i.line, i.before, i.luck, i.after))
  {
    hide Handle, Synced, Completed, EntryOf, Allowed, Grows, Shut;
    SyncedShut(v, i.before);
    var u := Synced(v, i.before);
    CompletedShut(u, NULL_ENTRY, RespBad, i.luck);
    if i.line.Known? {
      CompletedShut(u, EntryOf(i.line.c), RespBad, i.luck);
      HandleGrows(u, i.line.c, i.luck);
      HandleShut(u, i.line.c, i.luck);
    }
    SyncedShut(Do(u, i.line, i.luck), i.after);
  }

  lemma HandleShut(v: View, c: Command, luck: Luck)
    requires Shut(v) && c != AUTHENTICATE
    ensures Shut(Handle(v, c, luck))
  {
    hide Handle, Grows;
    if TlsStarted in v.log {
      HandleGrows(v, c, luck);
      LaterShut(v, Handle(v, c, luck));
    } else {
      EarlyShut(v, c, luck);
    }
  }

  /** With LOGIN disabled, a session without preauthentication and without AUTHENTICATE
      commands stays in the non-authenticated state until TLS is negotiated, which
      enables LOGIN again. */
  lemma {:induction false} DisabledLogin(mode: TlsMode, inputs: seq<Input>)
    requires mode != TlsConnection && forall k :: 0 <= k < |inputs| ==> inputs[k].line != Known(AUTHENTICATE)
    ensures var v := Run(Start(mode, true, NoPreauth), inputs);
            Shut(v) && (v.state != STATE_NONAUTH ==> TlsStarted in v.log)
  {
    hide Turn, Inv, StartCapa;
    var start := Start(mode, true, NoPreauth);
    StartKeeps(mode, true, NoPreauth);
    RunKeeps(start, inputs);
    InvSetUp(Run(start, inputs));
    if inputs != [] {
      var n := |inputs| - 1;
      DisabledLogin(mode, inputs[..n]);
      TurnShut(Run(start, inputs[..n]), inputs[n]);
    }
  }

  // ---------- what does not hold ----------

  const FAIR: Luck :=
    Luck(true, true, true, true, AuthFail, RespOk, true, true, true, true, true, true, RespOk, false, false)

  /** A mailbox may stay open behind the authenticated state: CLOSE with an argument
      fails, and a failed CLOSE leads there. */
  lemma OpenButAuthenticated()
    ensures var v := Start(TlsNo, false, PreauthDone);
            var u := Do(Do(v, Known(SELECT), FAIR), Known(CLOSE), FAIR.(args := false));
            u.alive && u.state == STATE_AUTH && u.mbox == Some(0) == u.table
  {
    hide Do;
    var v := Start(TlsNo, false, PreauthDone);
    var w := v.(state := STATE_SEL, mbox := Some(0), table := Some(0), boxes := 1);
    Selected(v);
    assert Do(v, Known(SELECT), FAIR) == w.(reply := RespOk);
    Unclosed(w);
  }

  lemma Selected(v: View)
    requires v.alive && v.state == STATE_AUTH && v.mbox.None?
    ensures Do(v, Known(SELECT), FAIR) ==
            v.(state := STATE_SEL, mbox := Some(v.boxes), table := if v.table.None? then Some(v.boxes) else v.table,
               boxes := v.boxes + 1, reply := RespOk)
  {
  }

  lemma Unclosed(v: View)
    requires v.alive && v.state == STATE_SEL && v.mbox.Some? && v.table.Some?
    ensures Do(v, Known(CLOSE), FAIR.(args := false)) == v.(state := STATE_AUTH, reply := RespBad)
  {
  }
}
