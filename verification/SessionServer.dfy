/** The session as the source keeps it: global variables that the command handlers
    assign.  Each handler is proved to be its function of `Session`. */
module SessionServer {
  import opened Common
  import opened Session
  import opened SessionRules

  /** util_getcommand */
  method GetCommand(cmd: string) returns (r: Option<Command>)
    ensures r == SessionRules.Find(cmd, Table())
  {
    hide EntryOf;
    var table := Table();
    for i := 0 to |table|
      invariant SessionRules.Find(cmd, table) == SessionRules.Find(cmd, table[i..])
    {
      var name := EntryOf(table[i]).name;
      if |name| == |cmd| && EqNoCase(name, cmd) {
        return Some(table[i]);
      }
      assert table[i..][1..] == table[i + 1..];
    }
    r := None;
  }

  /** imap4d_capability_remove */
  method CapabilityRemove(list: seq<string>, name: string) returns (r: seq<string>)
    ensures r == Without(list, name)
  {
    hide Without;
    var i := 0;
    assert list[..0] + Without(list[0..], name) == Without(list, name) by {
      assert list[0..] == list;
    }
    while i < |list| && list[i] != name
      invariant i <= |list| && Without(list, name) == list[..i] + Without(list[i..], name)
    {
      WithoutHere(list, name, i);
      i := i + 1;
    }
    if i < |list| {
      WithoutHere(list, name, i);
      r := list[..i] + list[i + 1..];
    } else {
      WithoutNothing(name);
      assert list[..i] == list && list[i..] == [] && list + [] == list;
      r := list;
    }
  }

  lemma WithoutHere(list: seq<string>, name: string, i: nat)
    requires i < |list|
    ensures list[i] == name ==> Without(list[i..], name) == list[i + 1..]
    ensures list[i] != name ==>
              list[..i] + Without(list[i..], name) == list[..i + 1] + Without(list[i + 1..], name)
  {
    var rest := list[i..];
    assert rest[1..] == list[i + 1..] && rest[0] == list[i];
    if list[i] != name {
      AppendAssoc(list[..i], [list[i]], Without(list[i + 1..], name));
      assert list[..i + 1] == list[..i] + [list[i]];
    }
  }

  lemma WithoutNothing(name: string)
    ensures Without([], name) == []
  {
  }

  class Server {
    var state: nat
    var mbox: Option<nat>
    var attr_table_valid: bool
    var tls_mode: TlsMode
    var login_disabled: bool
    var capa_list: seq<string>
    var reply: Resp
    var running: bool
    var boxes: nat
    /** The mailbox the table was read from, and the record of the run. */
    ghost var owner: Option<nat>
    ghost var log: seq<Happening>

    ghost function Now(): View
      reads this
    {
      View(state, mbox, if attr_table_valid then owner else None, boxes,
           tls_mode, login_disabled, capa_list, reply, running, log)
    }

    ghost predicate Valid()
      reads this
    {
      attr_table_valid ==> owner.Some?
    }

    /** Section 3 of RFC 3501 and the advertised capabilities, on the variables. */
    ghost predicate Sound()
      reads this
    {
      && (running && state == STATE_SEL ==> mbox.Some?)
      && (running && attr_table_valid ==> owner == mbox)
      && (state == STATE_AUTH || state == STATE_SEL ==> SetupDone in log)
      && (CAPA_STARTTLS in capa_list <==> tls_mode == TlsOndemand || tls_mode == TlsRequired)
      && (CAPA_XTLSREQUIRED in capa_list <==> tls_mode == TlsRequired)
      && (CAPA_LOGINDISABLED in capa_list <==> login_disabled)
      && multiset(log)[TlsStarted] <= 1
    }

    /** imap4d_mainloop, up to the loop */
    constructor (mode: TlsMode, loginDisabled: bool, preauth: Preauth)
      ensures Valid() && Sound()
      ensures Now() == Start(mode, loginDisabled, preauth)
    {
      state, mbox, attr_table_valid, owner, boxes := STATE_NONAUTH, None, false, None, 0;
      tls_mode, login_disabled, reply, running, log := mode, loginDisabled, RespOk, true, [];
      capa_list := StartCapa(mode, loginDisabled);
      new;
      Begin(mode, loginDisabled, preauth);
    }

    method Begin(mode: TlsMode, loginDisabled: bool, preauth: Preauth)
      requires Now() == View(STATE_NONAUTH, None, None, 0, mode, loginDisabled, StartCapa(mode, loginDisabled),
                             RespOk, true, [])
      requires Valid()
      modifies this
      ensures Valid() && Sound() && Now() == Start(mode, loginDisabled, preauth)
    {
      hide Inv, StartCapa, Encrypted, Sound;
      if mode == TlsConnection {
        EncryptedLog(Now());
        TlsEncryptionOn();
      }
      if preauth == PreauthDone {
        state, log := STATE_AUTH, [SetupDone];
      }
      StartKeeps(mode, loginDisabled, preauth);
      StateSound();
    }

    lemma StateSound()
      requires Valid() && Inv(Now())
      ensures Sound()
    {
      InvSound(Now());
    }

    /** imap4d_sync, as far as it decides whose flags the table holds */
    method Sync(luck: Luck)
      requires Valid()
      modifies this
      ensures Valid() && Now() == Synced(old(Now()), luck)
    {
      if mbox.None? {
        attr_table_valid := false;
      } else if !attr_table_valid || luck.changed {
        if luck.corrupted {
          running := false;
        } else {
          attr_table_valid, owner := true, mbox;
        }
      }
    }

    /** io_format_completion_response */
    method Complete(e: Entry, rc: Resp, luck: Luck)
      requires Valid()
      modifies this
      ensures Valid() && Now() == Completed(old(Now()), e, rc, luck)
    {
      Sync(luck);
      reply := rc;
      if !running {
        return;
      }
      var new_state;
      if rc == RespOk {
        new_state := e.success;
      } else if e.failure <= state {
        new_state := e.failure;
      } else {
        new_state := STATE_NONE;
      }
      if new_state != STATE_NONE {
        state := new_state;
      }
    }

    /** tls_encryption_on */
    method TlsEncryptionOn()
      modifies this
      ensures Now() == Encrypted(old(Now())) && owner == old(owner) && attr_table_valid == old(attr_table_valid)
    {
      tls_mode := TlsNo;
      capa_list := CapabilityRemove(capa_list, CAPA_STARTTLS);
      login_disabled := false;
      capa_list := CapabilityRemove(capa_list, CAPA_LOGINDISABLED);
      capa_list := CapabilityRemove(capa_list, CAPA_XTLSREQUIRED);
    }

    /** imap4d_starttls */
    method DoStartTls(e: Entry, luck: Luck)
      requires Valid()
      modifies this
      ensures Valid() && Now() == StartTls(old(Now()), e, luck)
    {
      hide Completed, Encrypted;
      if tls_mode == TlsNo || !luck.args {
        Complete(e, RespBad, luck);
        return;
      }
      Complete(e, RespOk, luck);
      if !running {
        return;
      }
      if luck.tlsUp {
        TlsEncryptionOn();
        EncryptedLog(Session.Completed(old(Now()), e, RespOk, luck));
        log := log + [TlsStarted];
      } else {
        running := false;
      }
    }

    /** imap4d_login */
    method DoLogin(e: Entry, luck: Luck)
      requires Valid()
      modifies this
      ensures Valid() && Now() == Login(old(Now()), e, luck)
    {
      hide Completed;
      if login_disabled || tls_mode == TlsRequired {
        Complete(e, RespNo, luck);
      } else if !luck.args {
        Complete(e, RespBad, luck);
      } else if !luck.user || !luck.password {
        Complete(e, RespNo, luck);
      } else if !luck.setup {
        Complete(e, RespNo, luck);
      } else {
        log := log + [SetupDone];
        Complete(e, RespOk, luck);
      }
    }

    /** imap4d_authenticate, with what a mechanism does that answers for itself */
    method DoAuthenticate(e: Entry, luck: Luck)
      requires Valid()
      modifies this
      ensures Valid() && Now() == Authenticate(old(Now()), e, luck)
    {
      hide Completed;
      if !luck.args {
        Complete(e, RespBad, luck);
        return;
      }
      if tls_mode == TlsRequired {
        Complete(e, RespNo, luck);
        return;
      }
      match luck.auth {
        case AuthOk =>
          if luck.username && luck.setup {
            log := log + [SetupDone];
            Complete(e, RespOk, luck);
          } else {
            Complete(e, RespNo, luck);
          }
        case AuthResp =>
          if luck.response == RespOk && luck.username && luck.setup {
            log := log + [SetupDone];
            Complete(e, RespOk, luck);
          } else {
            Complete(e, RespNo, luck);
          }
        case _ =>
          Complete(e, RespNo, luck);
      }
    }

    /** imap4d_select and imap4d_examine */
    method DoSelect(e: Entry, luck: Luck)
      requires Valid()
      modifies this
      ensures Valid() && Now() == Select(old(Now()), e, luck)
    {
      hide Completed, Synced, OpenBox;
      if !luck.args {
        Complete(e, RespBad, luck);
        return;
      }
      if mbox.Some? {
        mbox := None;
        Sync(luck);
      }
      DoOpen(e, luck);
    }

    method DoOpen(e: Entry, luck: Luck)
      requires Valid()
      modifies this
      ensures Valid() && Now() == OpenBox(old(Now()), e, luck)
    {
      hide Completed, Synced;
      if luck.named && luck.openOk {
        mbox, boxes := Some(boxes), boxes + 1;
        state := STATE_SEL;
        if luck.status {
          Sync(luck);
          reply := RespOk;
          return;
        }
      }
      DestroyAndFail(e, luck);
    }

    method DestroyAndFail(e: Entry, luck: Luck)
      requires Valid()
      modifies this
      ensures Valid() && Now() == Completed(old(Now()).(mbox := None), e, RespNo, luck)
    {
      hide Completed;
      mbox := None;
      Complete(e, RespNo, luck);
    }

    /** imap4d_close0 */
    method DoClose(e: Entry, luck: Luck)
      requires Valid()
      modifies this
      ensures Valid() && Now() == Close(old(Now()), e, luck)
    {
      hide Completed;
      if !luck.args {
        Complete(e, RespBad, luck);
        return;
      }
      mbox := None;
      Complete(e, if luck.closed then RespOk else RespNo, luck);
    }

    /** imap4d_expunge */
    method DoExpunge(e: Entry, luck: Luck)
      requires Valid()
      modifies this
      ensures Valid() && Now() == Expunge(old(Now()), e, luck)
    {
      hide Completed, Synced;
      if !luck.args {
        Complete(e, RespBad, luck);
        return;
      }
      attr_table_valid := false;
      Sync(luck);
      if running {
        Complete(e, RespOk, luck);
      }
    }

    /** imap4d_logout */
    method DoLogout(e: Entry, luck: Luck)
      requires Valid()
      modifies this
      ensures Valid() && Now() == Logout(old(Now()), e, luck)
    {
      hide Completed;
      if !luck.args {
        Complete(e, RespBad, luck);
        return;
      }
      mbox, running, reply := None, false, RespOk;
    }

    method DoOther(e: Entry, luck: Luck)
      requires Valid()
      modifies this
      ensures Valid() && Now() == Other(old(Now()), e, luck)
    {
      hide Completed;
      if luck.rc == RespNone {
        reply := RespNone;
      } else {
        Complete(e, luck.rc, luck);
      }
    }

    method Dispatch(c: Command, luck: Luck)
      requires Valid()
      modifies this
      ensures Valid() && Now() == Handle(old(Now()), c, luck)
    {
      hide EntryOf, StartTls, Login, Authenticate, Select, Close, Expunge, Logout, Other;
      var e := EntryOf(c);
      match c {
        case STARTTLS => DoStartTls(e, luck);
        case LOGIN => DoLogin(e, luck);
        case AUTHENTICATE => DoAuthenticate(e, luck);
        case SELECT => DoSelect(e, luck);
        case EXAMINE => DoSelect(e, luck);
        case CLOSE => DoClose(e, luck);
        case UNSELECT => DoClose(e, luck);
        case EXPUNGE => DoExpunge(e, luck);
        case LOGOUT => DoLogout(e, luck);
        case _ => DoOther(e, luck);
      }
    }

    /** util_do_command: whatever the command does, the variables stay sound, and a
        command that is refused or fails does not raise the state */
    method DoCommand(line: Line, luck: Luck)
      requires Valid() && Inv(Now()) && running
      modifies this
      ensures Valid() && Inv(Now()) && Sound()
      ensures reply != RespOk ==> state <= old(state)
      ensures Now() == Do(old(Now()), line, luck)
    {
      hide EntryOf, Handle, Completed, Inv, Sound;
      DoKeeps(Now(), line, luck);
      if !line.Known? {
        Complete(NULL_ENTRY, RespBad, luck);
      } else {
        var e := EntryOf(line.c);
        if e.states != 0 && !HasBit(e.states, state) {
          Complete(e, RespBad, luck);
        } else {
          Dispatch(line.c, luck);
        }
      }
      StateSound();
    }

    /** util_do_command, from the words of the line */
    method DoArguments(argv: seq<string>, luck: Luck)
      requires Valid() && Inv(Now()) && running
      modifies this
      ensures Valid() && Inv(Now()) && Sound()
      ensures Now() == Do(old(Now()), LineOf(argv), luck)
    {
      hide Inv, Sound, Table;
      if |argv| < 2 {
        DoCommand(if argv == [] then Empty else TagOnly, luck);
      } else {
        var found := GetCommand(argv[1]);
        DoCommand(if found.Some? then Known(found.value) else Unknown, luck);
      }
    }

    /** One turn of the main loop. */
    method LoopTurn(line: Line, before: Luck, luck: Luck, after: Luck)
      requires Valid() && Inv(Now())
      modifies this
      ensures Valid() && Inv(Now())
      ensures Now() == Turn(old(Now()), line, before, luck, after)
    {
      hide Synced, Do, Inv, Sound;
      if !running {
        return;
      }
      SyncedKeeps(Now(), before);
      Sync(before);
      if running {
        DoCommand(line, luck);
        if running {
          SyncedKeeps(Now(), after);
          Sync(after);
        }
      }
    }

    /** A session, command by command. */
    method Serve(inputs: seq<Input>)
      requires Valid() && Inv(Now())
      modifies this
      ensures Valid() && Inv(Now()) && Sound()
      ensures Now() == Run(old(Now()), inputs)
    {
      hide Turn, Inv, Sound;
      ghost var start := Now();
      for k := 0 to |inputs|
        invariant Valid() && Inv(Now()) && Now() == Run(start, inputs[..k])
      {
        assert inputs[..k + 1][..k] == inputs[..k];
        var i := inputs[k];
        LoopTurn(i.line, i.before, i.luck, i.after);
      }
      assert inputs[..|inputs|] == inputs;
      StateSound();
    }
  }

  /** A whole session: at its end the variables are sound, the session is authenticated
      exactly when somebody was let in, and where TLS was required and nobody
      preauthenticated, TLS was the first thing that happened. */
  method MainLoop(mode: TlsMode, loginDisabled: bool, preauth: Preauth, inputs: seq<Input>) returns (server: Server)
    ensures server.Valid() && server.Sound()
    ensures var start := Start(mode, loginDisabled, preauth);
            server.state == STATE_AUTH || server.state == STATE_SEL <==>
              preauth == PreauthDone || exists k :: 0 <= k < |inputs| && EntersAt(start, inputs, k)
    ensures mode == TlsRequired && preauth != PreauthDone && server.state != STATE_NONAUTH ==>
              server.log != [] && server.log[0] == TlsStarted
  {
    hide Inv, Run, Start, EntersAt;
    server := new Server(mode, loginDisabled, preauth);
    StartKeeps(mode, loginDisabled, preauth);
    server.Serve(inputs);
    AuthenticatedExactly(mode, loginDisabled, preauth, inputs);
    if mode == TlsRequired && preauth != PreauthDone {
      RequiredTls(loginDisabled, preauth, inputs);
    }
  }

  lemma EncryptedLog(v: View)
    ensures Encrypted(v).log == v.log
  {
  }
}
