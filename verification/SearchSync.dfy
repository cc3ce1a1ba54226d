/** The flags of the notifications are those that SEARCH asks for: EXPUNGE removes what
    SEARCH DELETED finds, and RECENT counts what SEARCH RECENT finds. */
module SearchSync {
  import opened Common
  import opened Expunge
  import opened Search
  import opened SearchEval
  import opened SearchWords
  import ClientView
  import Sync

  lemma SameBits(b: bv8)
    ensures (b as int) / 4 % 2 == 1 <==> b & 0x04 != 0
    ensures (b as int) / 16 % 2 == 0 <==> b & 0x10 == 0
    ensures (b as int) / 32 % 2 == 1 <==> b & 0x20 != 0
  {
    DeletedBit(b);
    SeenBit(b);
    ReadBit(b);
  }

  lemma ReadBit(b: bv8)
    ensures (b as int) / 32 % 2 == 1 <==> b & 0x20 != 0
  {
  }

  lemma DeletedBit(b: bv8)
    ensures (b as int) / 4 % 2 == 1 <==> b & 0x04 != 0
  {
  }

  lemma SeenBit(b: bv8)
    ensures (b as int) / 16 % 2 == 0 <==> b & 0x10 == 0
  {
  }

  /** The flags of a mailbox as the table and the notifications have them. */
  function Flags(msgs: seq<Message>): seq<int> {
    seq(|msgs|, i requires 0 <= i < |msgs| => msgs[i].flags as int)
  }

  /** The tests of the notifications are those of the keys DELETED, RECENT and SEEN. */
  lemma FlagsFound(lib: Library, msg: Message)
    ensures Sync.IsDeleted(msg.flags as int) <==> Selects(lib, ["DELETED"], msg)
    ensures Sync.IsRecent(msg.flags as int) <==> Selects(lib, ["RECENT"], msg)
    ensures ClientView.IsRead(msg.flags as int) <==> Selects(lib, ["SEEN"], msg)
  {
    hide Selects;
    SameBits(msg.flags);
    FlagKeys(lib, "DELETED", msg);
    FlagKeys(lib, "RECENT", msg);
    FlagKeys(lib, "SEEN", msg);
  }

  lemma FlagsPrefix(msgs: seq<Message>)
    requires msgs != []
    ensures var n := |msgs| - 1;
            && Flags(msgs)[..n] == Flags(msgs[..n]) && Flags(msgs)[n] == msgs[n].flags as int
            && Sync.Deleted(Flags(msgs))[..n] == Sync.Deleted(Flags(msgs[..n]))
            && Sync.Deleted(Flags(msgs))[n] == Sync.IsDeleted(msgs[n].flags as int)
  {
    hide Sync.IsDeleted;
  }

  /** Section 6.4.3 of RFC 3501: EXPUNGE leaves exactly the messages that SEARCH DELETED
      does not find. */
  lemma {:induction false} ExpungedFound(lib: Library, msgs: seq<Message>, msg: Message)
    ensures msg in Survivors(msgs, Sync.Deleted(Flags(msgs))) <==> msg in msgs && !Selects(lib, ["DELETED"], msg)
  {
    hide Selects, Sync.IsDeleted, Flags;
    if msgs != [] {
      var n := |msgs| - 1;
      ExpungedFound(lib, msgs[..n], msg);
      FlagsPrefix(msgs);
      FlagsFound(lib, msgs[n]);
      assert msg in msgs <==> msg in msgs[..n] || msg == msgs[n];
    }
  }

  /** Their flags are those that `FlagTable.ExpungeMailbox` keeps. */
  lemma {:induction false} ExpungedFlags(msgs: seq<Message>)
    ensures Survivors(Flags(msgs), Sync.Deleted(Flags(msgs))) == Flags(Survivors(msgs, Sync.Deleted(Flags(msgs))))
  {
    hide Sync.IsDeleted;
    if msgs != [] {
      ExpungedFlags(msgs[..|msgs| - 1]);
      FlagsPrefix(msgs);
    }
  }

  /** The messages, each of which can be read. */
  function Readable(msgs: seq<Message>): seq<Option<Message>> {
    seq(|msgs|, i requires 0 <= i < |msgs| => Some(msgs[i]))
  }

  lemma RecentTree(lib: Library, msg: Message)
    ensures Search0(lib, ["RECENT"]).Ready?
    ensures Meaning(lib, Search0(lib, ["RECENT"]).tree, msg) <==> Selects(lib, ["RECENT"], msg)
  {
    hide Compile, Meaning, EvalNumber;
    MacroSelects(lib, RECENT, "RECENT", msg);
    RecentStatement(lib);
    NeverAborts(lib, ["RECENT"], msg);
  }

  lemma RecentStatement(lib: Library)
    ensures Search0(lib, ["RECENT"]) == Compiled(Compile(lib, ["RECENT"]))
  {
    hide Compile;
    assert |Fold("RECENT")| == 6 && |Fold("CHARSET")| == 7;
  }

  /** The number in the RECENT response is that of the messages SEARCH RECENT lists. */
  lemma {:induction false} RecentFound(lib: Library, msgs: seq<Message>, n: nat)
    requires n <= |msgs|
    ensures Search0(lib, ["RECENT"]).Ready?
    ensures Sync.RecentCount(Flags(msgs)[..n])
         == |Selected(lib, Search0(lib, ["RECENT"]).tree, Readable(msgs), n)|
  {
    hide Search0, Meaning, Selects, Sync.IsRecent;
    if n == 0 {
      RecentTree(lib, Message(1, 1, 0, 0, (h, s) => false, [], s => false, s => false, None, None));
    } else {
      RecentFound(lib, msgs, n - 1);
      Sync.RecentNext(Flags(msgs), n - 1);
      RecentTree(lib, msgs[n - 1]);
      FlagsFound(lib, msgs[n - 1]);
    }
  }
}
