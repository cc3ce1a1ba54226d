/** What a client believes that only applies the responses it gets, along any run of
    commands, deliveries and changes by other programs. */
module ClientView {
  import opened Common
  import opened Expunge
  import opened Sync

  /** The mailbox, the server's flag table (valid between commands), and the flags the
      client knows of each message it was told of. */
  datatype World = World(mailbox: seq<int>, table: seq<int>, client: seq<Option<int>>)

  datatype Step =
    | Outside(now: seq<int>)
    | Store(msgno: nat, op: int -> int, ack: bool)
    | Ask(msgno: nat)
    | Read(msgno: nat)
    | Tell
    | Quiet
    | ExpungeAll
    | Reopen(now: seq<int>)

  /** What another program may do before the mailbox is opened again, what a message
      set can name, and when a synchronisation says nothing. */
  predicate Enabled(w: World, s: Step) {
    match s
    case Outside(now) => |now| >= |w.mailbox|
    case Store(msgno, _, _) => 1 <= msgno <= |w.mailbox|
    case Ask(msgno) => 1 <= msgno <= |w.mailbox|
    case Read(msgno) => 1 <= msgno <= |w.mailbox|
    case Quiet => |w.table| == |w.mailbox|
    case _ => true
  }

  // ---------- the client ----------

  const ATTR_SEEN: int := 0x10
  const ATTR_READ: int := 0x20

  /** The flags that the list `(\\Seen)` stands for: read, and no longer recent. */
  const SEEN_ALONE: int := ATTR_READ + ATTR_SEEN

  predicate IsRead(flags: int) {
    flags / ATTR_READ % 2 == 1
  }

  /** None for a response that speaks of a message the client does not have. */
  function Hear1(c: seq<Option<int>>, e: Event): Option<seq<Option<int>>> {
    match e
    case FetchFlags(n, f) => if 1 <= n <= |c| then Some(c[n - 1 := Some(f)]) else None
    case Exists(n) => if n >= |c| then Some(c + seq(n - |c|, _ => None)) else None
    case Expunged(n) => Remove(c, n)
    case _ => Some(c)
  }

  function Hear(c: seq<Option<int>>, es: seq<Event>): Option<seq<Option<int>>>
    decreases |es|
  {
    if es == [] then Some(c)
    else match Hear1(c, es[0])
         case None => None
         case Some(d) => Hear(d, es[1..])
  }

  lemma {:induction false} HearAppend(c: seq<Option<int>>, es: seq<Event>, fs: seq<Event>)
    ensures Hear(c, es + fs) == match Hear(c, es) case None => None case Some(d) => Hear(d, fs)
    decreases |es|
  {
    if es == [] {
      assert es + fs == fs;
    } else {
      assert (es + fs)[1..] == es[1..] + fs;
      if Hear1(c, es[0]).Some? {
        HearAppend(Hear1(c, es[0]).value, es[1..], fs);
      }
    }
  }

  lemma HearOne(c: seq<Option<int>>, e: Event)
    ensures Hear(c, [e]) == Hear1(c, e)
  {
    var none: seq<Event> := [];
    assert [e][1..] == none;
  }

  // ---------- one step ----------

  function StoredBy(c: seq<Option<int>>, msgno: nat, op: int -> int): seq<Option<int>>
    requires 1 <= msgno <= |c|
  {
    c[msgno - 1 := if c[msgno - 1].Some? then Some(op(c[msgno - 1].value)) else None]
  }

  /** The world after a step; None when the client is told something impossible.  The
      server's part is what the methods of `FlagTable` ensure.  A client that stores
      silently works out the new flags from those it knows.  A FETCH leaves the table as
      it was: one of flags tells those in the mailbox, and one of text says of a message
      it marks as read that its flags are `(\\Seen)`, whatever they are besides. */
  function Next(w: World, s: Step): Option<World>
    requires Enabled(w, s)
  {
    match s
    case Outside(now) => Some(w.(mailbox := now))
    case Store(n, op, ack) =>
      var f := op(w.mailbox[n - 1]);
      var table := if n <= |w.table| then w.table[n - 1 := f] else w.table;
      if ack then After(w.mailbox[n - 1 := f], table, Hear(w.client, [FetchFlags(n, f)]))
      else Some(World(w.mailbox[n - 1 := f], table, if n <= |w.client| then StoredBy(w.client, n, op) else w.client))
    case Ask(n) => After(w.mailbox, w.table, Hear(w.client, [FetchFlags(n, w.mailbox[n - 1])]))
    case Read(n) =>
      var f := w.mailbox[n - 1];
      if n > |w.client| then None
      else if IsRead(f) then Some(w)
      else After(w.mailbox[n - 1 := f + ATTR_READ], w.table, Hear(w.client, [FetchFlags(n, SEEN_ALONE)]))
    case Tell => After(w.mailbox, w.mailbox, Hear(w.client, Notice(true, w.table, w.mailbox)))
    case Quiet => Some(w)
    case ExpungeAll =>
      var deleted := Deleted(w.mailbox);
      var left := Survivors(w.mailbox, deleted);
      After(left, left, Hear(w.client, ExpungedLines(Reports(deleted, 0, 0)) + Notice(false, [], left)))
    case Reopen(now) => After(now, now, Hear(w.client, [Alert] + Notice(false, [], now)))
  }

  function After(mailbox: seq<int>, table: seq<int>, client: Option<seq<Option<int>>>): Option<World> {
    if client.None? then None else Some(World(mailbox, table, client.value))
  }

  predicate Agrees(known: Option<int>, flags: int) {
    known.Some? ==> known.value == flags
  }

  /** All the client knows is what the table says. */
  ghost predicate InStep(w: World) {
    && |w.client| == |w.table| <= |w.mailbox|
    && forall i :: 0 <= i < |w.client| ==> Agrees(w.client[i], w.table[i])
  }

  /** What a step must find for the client to stay in step: a silent store may not
      cover up a change of the same message, and an expunge none of a message that
      stays; the flags that a FETCH asks for must have been noted as they are, and a
      message that one marks as read with no other flag; a mailbox that is opened again
      may not have lost or changed what the client knows; and no message that the
      client was not told of may be named. */
  ghost predicate Clean(w: World, s: Step)
    requires Enabled(w, s) && |w.client| == |w.table| <= |w.mailbox|
  {
    match s
    case Store(n, op, ack) =>
      if n > |w.client| then !ack
      else ack || w.client[n - 1].None? || op(w.client[n - 1].value) == op(w.mailbox[n - 1])
    case ExpungeAll =>
      var deleted := Deleted(w.mailbox);
      && !SomeDeleted(deleted, |w.client|)
      && forall i :: 0 <= i < |w.client| && !deleted[i] ==> Agrees(w.client[i], w.mailbox[i])
    case Ask(n) => n <= |w.client| && w.table[n - 1] == w.mailbox[n - 1]
    case Read(n) => n <= |w.client| && (IsRead(w.mailbox[n - 1]) || w.table[n - 1] == SEEN_ALONE)
    case Reopen(now) => |now| >= |w.client| && forall i :: 0 <= i < |w.client| ==> Agrees(w.client[i], now[i])
    case _ => true
  }

  // ---------- notifications ----------

  /** The client after the FETCH lines for the first `n` messages. */
  function Told(c: seq<Option<int>>, before: seq<int>, now: seq<int>, n: nat): (r: seq<Option<int>>)
    requires n <= |c| && n <= |before| && n <= |now|
  {
    seq(|c|, i requires 0 <= i < |c| => if i < n && now[i] != before[i] then Some(now[i]) else c[i])
  }

  lemma {:induction false} HearChanges(c: seq<Option<int>>, before: seq<int>, now: seq<int>, n: nat)
    requires n <= |c| && n <= |before| && n <= |now|
    ensures Hear(c, Changes(before, now, n)) == Some(Told(c, before, now, n))
  {
    hide Hear, Hear1;
    if n == 0 {
      HearNothing(c);
      assert Told(c, before, now, 0) == c;
    } else {
      HearChanges(c, before, now, n - 1);
      var d := Told(c, before, now, n - 1);
      if now[n - 1] != before[n - 1] {
        var e := FetchFlags(n, now[n - 1]);
        HearAppend(c, Changes(before, now, n - 1), [e]);
        HearOne(d, e);
        HearFetch(d, n, now[n - 1]);
        assert d[n - 1 := Some(now[n - 1])] == Told(c, before, now, n);
      } else {
        assert Changes(before, now, n) == Changes(before, now, n - 1);
        assert d == Told(c, before, now, n);
      }
    }
  }

  lemma HearNothing(c: seq<Option<int>>)
    ensures Hear(c, []) == Some(c)
  {
  }

  lemma HearFetch(c: seq<Option<int>>, n: nat, f: int)
    requires 1 <= n <= |c|
    ensures Hear1(c, FetchFlags(n, f)) == Some(c[n - 1 := Some(f)])
  {
  }

  lemma HearTotals(c: seq<Option<int>>, total: nat, recent: nat)
    ensures Hear(c, [Exists(total), Recent(recent)]) == Hear1(c, Exists(total))
  {
    hide Hear;
    assert [Exists(total), Recent(recent)] == [Exists(total)] + [Recent(recent)];
    HearAppend(c, [Exists(total)], [Recent(recent)]);
    HearOne(c, Exists(total));
    if Hear1(c, Exists(total)).Some? {
      HearOne(Hear1(c, Exists(total)).value, Recent(recent));
    }
  }

  lemma TellStep(w: World)
    requires |w.client| == |w.table| <= |w.mailbox|
    ensures var n := |w.client|;
            Next(w, Tell) == Some(World(w.mailbox, w.mailbox,
              Told(w.client, w.table, w.mailbox, n) + seq(|w.mailbox| - n, _ => None)))
  {
    hide Hear, Told;
    var n := |w.client|;
    HearChanges(w.client, w.table, w.mailbox, n);
    HearAppend(w.client, Changes(w.table, w.mailbox, n), [Exists(|w.mailbox|), Recent(RecentCount(w.mailbox))]);
    ToldLength(w.client, w.table, w.mailbox, n);
    HearTotals(Told(w.client, w.table, w.mailbox, n), |w.mailbox|, RecentCount(w.mailbox));
  }

  lemma ToldLength(c: seq<Option<int>>, before: seq<int>, now: seq<int>, n: nat)
    requires n <= |c| && n <= |before| && n <= |now|
    ensures |Told(c, before, now, n)| == |c|
  {
  }

  /** After a synchronisation that notifies, the client knows the present flags of every
      message it knew, and of every one that changed. */
  lemma TellInforms(w: World)
    requires InStep(w)
    ensures Next(w, Tell).Some?
    ensures var w' := Next(w, Tell).value;
            && InStep(w') && w'.table == w'.mailbox == w.mailbox
            && forall i :: 0 <= i < |w.client| && (w.client[i].Some? || w.mailbox[i] != w.table[i])
                           ==> w'.client[i] == Some(w.mailbox[i])
  {
    hide Next;
    TellStep(w);
    var told := Told(w.client, w.table, w.mailbox, |w.client|);
    forall i | 0 <= i < |w.client|
      ensures Agrees(told[i], w.mailbox[i])
      ensures w.client[i].Some? || w.mailbox[i] != w.table[i] ==> told[i] == Some(w.mailbox[i])
    {
      assert Agrees(w.client[i], w.table[i]);
    }
  }

  // ---------- expunge ----------

  lemma {:induction false} HearLines(c: seq<Option<int>>, numbers: seq<nat>)
    ensures Hear(c, ExpungedLines(numbers)) == Replay(c, numbers)
  {
    if numbers != [] {
      assert ExpungedLines(numbers)[1..] == ExpungedLines(numbers[1..]);
      if Remove(c, numbers[0]).Some? {
        HearLines(Remove(c, numbers[0]).value, numbers[1..]);
      }
    }
  }

  /** What the client has after an expunge it can follow. */
  lemma HearExpunge(w: World)
    requires |w.client| <= |w.mailbox|
    ensures var deleted := Deleted(w.mailbox); var n := |w.client|;
            var left := Survivors(w.mailbox, deleted);
            Next(w, ExpungeAll) ==
              if SomeDeleted(deleted, n) then None
              else Some(World(left, left, Survivors(w.client, deleted[..n]) + seq(|w.mailbox| - n, _ => None)))
  {
    hide Hear, Deleted, Survivors, Reports, SomeDeleted;
    var deleted, n := Deleted(w.mailbox), |w.client|;
    DeletedLength(w.mailbox);
    var left := Survivors(w.mailbox, deleted);
    var numbers := Reports(deleted, 0, 0);
    HearLines(w.client, numbers);
    ClientFollowsExactly(w.client, deleted);
    HearAppend(w.client, ExpungedLines(numbers), Notice(false, [], left));
    assert Notice(false, [], left) == [Exists(|left|), Recent(RecentCount(left))];
    if !SomeDeleted(deleted, n) {
      var kept := Survivors(w.client, deleted[..n]);
      HearTotals(kept, |left|, RecentCount(left));
      SurvivorsTail(w.mailbox, deleted, n);
      SurvivorsMap(w.client, w.mailbox[..n], deleted[..n], (a, b) => true);
      assert |left| - |kept| == |w.mailbox| - n;
    }
  }

  lemma DeletedLength(flags: seq<int>)
    ensures |Deleted(flags)| == |flags|
  {
  }

  /** Expunging keeps the client in step if and only if it found what `Clean` asks for. */
  lemma ExpungeExact(w: World)
    requires InStep(w)
    ensures (Next(w, ExpungeAll).Some? && InStep(Next(w, ExpungeAll).value)) <==>
              Clean(w, ExpungeAll)
  {
    hide Next, Deleted, Survivors, SomeDeleted, Agrees;
    HearExpunge(w);
    var deleted, n := Deleted(w.mailbox), |w.client|;
    DeletedLength(w.mailbox);
    if !SomeDeleted(deleted, n) {
      var kept, left := Survivors(w.client, deleted[..n]), Survivors(w.mailbox, deleted);
      SurvivorsTail(w.mailbox, deleted, n);
      var first := Survivors(w.mailbox[..n], deleted[..n]);
      SurvivorsMap(w.client, w.mailbox[..n], deleted[..n], (a, b) => true);
      assert forall i :: 0 <= i < |kept| ==> left[i] == first[i];
      if forall i :: 0 <= i < n && !deleted[i] ==> Agrees(w.client[i], w.mailbox[i]) {
        SurvivorsMap(w.client, w.mailbox[..n], deleted[..n], Agrees);
        Unknown(kept, left);
      } else {
        var i :| 0 <= i < n && !deleted[i] && !Agrees(w.client[i], w.mailbox[i]);
        var k := SurvivorsWitness(w.client, w.mailbox[..n], deleted[..n], i);
        assert !Agrees(kept[k], left[k]);
      }
    }
  }

  lemma Unknown(kept: seq<Option<int>>, left: seq<int>)
    requires |kept| <= |left| && forall i :: 0 <= i < |kept| ==> Agrees(kept[i], left[i])
    ensures InStep(World(left, left, kept + seq(|left| - |kept|, _ => None)))
  {
  }

  lemma StoreExact(w: World, n: nat, op: int -> int, ack: bool)
    requires InStep(w) && 1 <= n <= |w.mailbox|
    ensures var s := Store(n, op, ack);
            (Next(w, s).Some? && InStep(Next(w, s).value)) <==> Clean(w, s)
  {
    hide Hear;
    var f := op(w.mailbox[n - 1]);
    HearOne(w.client, FetchFlags(n, f));
    var s := Store(n, op, ack);
    if n <= |w.client| {
      var w' := Next(w, s).value;
      assert w'.client[n - 1] == (if ack then Some(f) else StoredBy(w.client, n, op)[n - 1]) && w'.table[n - 1] == f;
      assert forall i :: 0 <= i < |w.client| && i != n - 1 ==> w'.client[i] == w.client[i] && w'.table[i] == w.table[i];
      assert InStep(w') ==> Agrees(w'.client[n - 1], w'.table[n - 1]);
    }
  }

  lemma AskExact(w: World, n: nat)
    requires InStep(w) && 1 <= n <= |w.mailbox|
    ensures (Next(w, Ask(n)).Some? && InStep(Next(w, Ask(n)).value)) <==> Clean(w, Ask(n))
  {
    hide Hear;
    HearOne(w.client, FetchFlags(n, w.mailbox[n - 1]));
    if n <= |w.client| {
      var w' := Next(w, Ask(n)).value;
      assert w'.client[n - 1] == Some(w.mailbox[n - 1]);
      assert forall i :: 0 <= i < |w.client| && i != n - 1 ==> w'.client[i] == w.client[i];
      assert InStep(w') ==> Agrees(w'.client[n - 1], w'.table[n - 1]);
    }
  }

  lemma ReadStep(w: World, n: nat)
    requires 1 <= n <= |w.mailbox| && n <= |w.client|
    ensures Next(w, Read(n)) ==
              if IsRead(w.mailbox[n - 1]) then Some(w)
              else Some(World(w.mailbox[n - 1 := w.mailbox[n - 1] + ATTR_READ], w.table,
                              w.client[n - 1 := Some(SEEN_ALONE)]))
  {
    hide Hear, IsRead;
    HearOne(w.client, FetchFlags(n, SEEN_ALONE));
  }

  lemma ReadExact(w: World, n: nat)
    requires InStep(w) && 1 <= n <= |w.mailbox|
    ensures (Next(w, Read(n)).Some? && InStep(Next(w, Read(n)).value)) <==> Clean(w, Read(n))
  {
    hide IsRead;
    if n <= |w.client| {
      hide Next;
      ReadStep(w, n);
      if !IsRead(w.mailbox[n - 1]) {
        var w' := Next(w, Read(n)).value;
        assert forall i :: 0 <= i < |w.client| && i != n - 1 ==> w'.client[i] == w.client[i];
        assert InStep(w') ==> Agrees(w'.client[n - 1], w'.table[n - 1]);
      }
    }
  }

  lemma ReopenStep(w: World, now: seq<int>)
    ensures Next(w, Reopen(now)) ==
              if |now| < |w.client| then None
              else Some(World(now, now, w.client + seq(|now| - |w.client|, _ => None)))
  {
    hide Hear;
    var lines := Notice(false, [], now);
    assert lines == [Exists(|now|), Recent(RecentCount(now))];
    HearAppend(w.client, [Alert], lines);
    HearOne(w.client, Alert);
    HearTotals(w.client, |now|, RecentCount(now));
  }

  lemma ReopenExact(w: World, now: seq<int>)
    requires InStep(w)
    ensures var s := Reopen(now);
            (Next(w, s).Some? && InStep(Next(w, s).value)) <==> Clean(w, s)
  {
    hide Next, Agrees;
    ReopenStep(w, now);
    if |now| >= |w.client| {
      var c := w.client + seq(|now| - |w.client|, _ => None);
      assert forall i :: 0 <= i < |w.client| ==> c[i] == w.client[i];
      if forall i :: 0 <= i < |w.client| ==> Agrees(w.client[i], now[i]) {
        Unknown(w.client, now);
      }
    }
  }

  /** After a FETCH that marks a message as read, the next notification puts the client
      right, unless the table has the new flags already, so that no line is sent. */
  lemma ReadThenTell(w: World, n: nat)
    requires InStep(w) && 1 <= n <= |w.client| && !IsRead(w.mailbox[n - 1])
    ensures Next(w, Read(n)).Some?
    ensures var v := Next(w, Read(n)).value; var u := Next(v, Tell);
            u.Some? && (InStep(u.value) <==>
                        w.table[n - 1] == SEEN_ALONE || w.table[n - 1] != w.mailbox[n - 1] + ATTR_READ)
  {
    hide Next, IsRead;
    ReadStep(w, n);
    var v := Next(w, Read(n)).value;
    TellStep(v);
    ReadTold(w, n);
  }

  lemma ReadTold(w: World, n: nat)
    requires InStep(w) && 1 <= n <= |w.client|
    ensures var now := w.mailbox[n - 1 := w.mailbox[n - 1] + ATTR_READ];
            var m := |w.client|;
            var told := Told(w.client[n - 1 := Some(SEEN_ALONE)], w.table, now, m);
            InStep(World(now, now, told + seq(|now| - m, _ => None))) <==>
              w.table[n - 1] == SEEN_ALONE || w.table[n - 1] != now[n - 1]
  {
    var now := w.mailbox[n - 1 := w.mailbox[n - 1] + ATTR_READ];
    var m := |w.client|;
    var told := Told(w.client[n - 1 := Some(SEEN_ALONE)], w.table, now, m);
    var all := told + seq(|now| - m, _ => None);
    forall i | 0 <= i < m && i != n - 1 ensures Agrees(all[i], now[i]) {
      assert Agrees(w.client[i], w.table[i]);
    }
    assert InStep(World(now, now, all)) ==> Agrees(all[n - 1], now[n - 1]);
  }

  /** The exact condition, for every kind of step. */
  lemma StepExact(w: World, s: Step)
    requires InStep(w) && Enabled(w, s)
    ensures (Next(w, s).Some? && InStep(Next(w, s).value)) <==> Clean(w, s)
  {
    hide Next, Clean, InStep;
    match s {
      case Outside(now) => OutsideKeeps(w, now);
      case Store(n, op, ack) => StoreExact(w, n, op, ack);
      case Ask(n) => AskExact(w, n);
      case Read(n) => ReadExact(w, n);
      case Tell => TellKeeps(w);
      case Quiet => QuietKeeps(w);
      case ExpungeAll => ExpungeExact(w);
      case Reopen(now) => ReopenExact(w, now);
    }
  }

  lemma OutsideKeeps(w: World, now: seq<int>)
    requires InStep(w) && Enabled(w, Outside(now))
    ensures Next(w, Outside(now)).Some? && InStep(Next(w, Outside(now)).value) && Clean(w, Outside(now))
  {
  }

  lemma TellKeeps(w: World)
    requires InStep(w)
    ensures Next(w, Tell).Some? && InStep(Next(w, Tell).value) && Clean(w, Tell)
  {
    hide Next;
    TellInforms(w);
  }

  lemma QuietKeeps(w: World)
    requires InStep(w) && Enabled(w, Quiet)
    ensures Next(w, Quiet).Some? && InStep(Next(w, Quiet).value) && Clean(w, Quiet)
  {
  }

  /** After a STORE the next synchronisation sends what it would have sent before, but
      nothing for the message stored. */
  lemma StoreThenTell(w: World, n: nat, op: int -> int)
    requires 1 <= n <= |w.table| <= |w.mailbox|
    ensures var w' := Next(w, Store(n, op, false)).value;
            forall e :: e in Changes(w'.table, w'.mailbox, |w.table|)
                   <==> e in Changes(w.table, w.mailbox, |w.table|) && e.FetchFlags? && e.msgno != n
  {
    hide Hear, Changes;
    var w' := Next(w, Store(n, op, false)).value;
    ChangesExactly(w.table, w.mailbox, |w.table|);
    ChangesExactly(w'.table, w'.mailbox, |w.table|);
  }

  // ---------- runs ----------

  function Last(w: World, steps: seq<Step>): Option<World>
    decreases |steps|
  {
    if steps == [] then Some(w)
    else if !Enabled(w, steps[0]) || Next(w, steps[0]).None? then None
    else Last(Next(w, steps[0]).value, steps[1..])
  }

  /** The steps of a run are all enabled and clean where they are taken. */
  ghost predicate CleanAt(w: World, steps: seq<Step>, k: nat)
    requires k < |steps|
  {
    match Last(w, steps[..k])
    case None => false
    case Some(v) => Enabled(v, steps[k]) && |v.client| == |v.table| <= |v.mailbox| && Clean(v, steps[k])
  }

  lemma {:induction false} LastNext(w: World, steps: seq<Step>)
    requires steps != []
    ensures var n := |steps| - 1;
            Last(w, steps) == match Last(w, steps[..n])
                              case None => None
                              case Some(v) => if Enabled(v, steps[n]) then Next(v, steps[n]) else None
    decreases |steps|
  {
    hide Next, Enabled;
    var n := |steps| - 1;
    if n == 0 {
      var none: seq<Step> := [];
      assert steps[..0] == none && steps[1..] == none;
    } else if Enabled(w, steps[0]) && Next(w, steps[0]).Some? {
      LastNext(Next(w, steps[0]).value, steps[1..]);
      assert steps[..n][1..] == steps[1..][..n - 1] && steps[..n][0] == steps[0];
    } else {
      assert steps[..n][0] == steps[0];
    }
  }

  /** Along any run of clean steps, the client is never told of a message it does not
      have, and all it knows of the flags is what the server noted; right after a
      notification that is the truth. */
  lemma {:induction false} RunInStep(w: World, steps: seq<Step>)
    requires InStep(w) && forall k :: 0 <= k < |steps| ==> CleanAt(w, steps, k)
    ensures Last(w, steps).Some? && InStep(Last(w, steps).value)
    ensures steps != [] && steps[|steps| - 1].Tell? ==> Last(w, steps).value.table == Last(w, steps).value.mailbox
    decreases |steps|
  {
    if steps != [] {
      var n := |steps| - 1;
      forall k | 0 <= k < n ensures CleanAt(w, steps[..n], k) {
        assert CleanAt(w, steps, k) && steps[..n][..k] == steps[..k];
      }
      RunInStep(w, steps[..n]);
      LastNext(w, steps);
      assert CleanAt(w, steps, n);
      var v := Last(w, steps[..n]).value;
      LastStep(v, steps[n]);
    }
  }

  lemma LastStep(v: World, s: Step)
    requires InStep(v) && Enabled(v, s) && Clean(v, s)
    ensures Next(v, s).Some? && InStep(Next(v, s).value)
    ensures s.Tell? ==> Next(v, s).value.table == Next(v, s).value.mailbox
  {
    hide Next, Clean, InStep, Enabled;
    StepExact(v, s);
    if s.Tell? {
      TellInforms(v);
    }
  }

  /** A client that fetches the text of an answered message is told that the message is
      seen, and no more; an EXPUNGE before the next notification, and it stays so. */
  lemma OwnFetchLost()
    ensures var w := World([0x11], [0x11], [Some(0x11)]);
            var v := World([0x31], [0x31], [Some(SEEN_ALONE)]);
            && InStep(w) && Last(w, [Read(1), ExpungeAll]) == Some(v) && Next(v, Tell) == Some(v)
  {
    hide Next, Last;
    var w := World([0x11], [0x11], [Some(0x11)]);
    FetchAnswered();
    ExpungeOne(0x31, 0x11, Some(SEEN_ALONE));
    LastTwo(w, Read(1), ExpungeAll);
    NothingToTell([Some(SEEN_ALONE)], [0x31]);
  }

  lemma FetchAnswered()
    ensures Next(World([0x11], [0x11], [Some(0x11)]), Read(1)) == Some(World([0x31], [0x11], [Some(SEEN_ALONE)]))
  {
    hide Next;
    ReadStep(World([0x11], [0x11], [Some(0x11)]), 1);
    assert [0x11][0 := 0x31] == [0x31] && [Some(0x11)][0 := Some(SEEN_ALONE)] == [Some(SEEN_ALONE)];
  }

  /** An expunge that removes nothing. */
  lemma ExpungeOne(now: int, noted: int, known: Option<int>)
    requires !IsDeleted(now)
    ensures Next(World([now], [noted], [known]), ExpungeAll) == Some(World([now], [now], [known]))
  {
    hide Next;
    HearExpunge(World([now], [noted], [known]));
    assert Deleted([now]) == [false] && [false][..1] == [false];
    KeptAll([now], [false]);
    KeptAll([known], [false]);
    assert Survivors([known], [false]) + seq(0, _ => None) == [known];
  }

  lemma LastTwo(w: World, s: Step, t: Step)
    requires Enabled(w, s) && Next(w, s).Some? && Enabled(Next(w, s).value, t)
    ensures Last(w, [s, t]) == Next(Next(w, s).value, t)
  {
    hide Next, Enabled;
    var one, none: seq<Step> := [t], [];
    var v := Next(w, s).value;
    assert [s, t][1..] == one && one[1..] == none && one[0] == t;
    assert Last(v, one) == Next(v, t) by {
      if Next(v, t).Some? {
        assert Last(Next(v, t).value, none) == Next(v, t);
      }
    }
  }

  /** A flag set by another program after the synchronisation before an EXPUNGE is noted
      by the server and never reported: the client goes on with the old flags. */
  lemma LostChange()
    ensures var w := World([0x20], [0], [Some(0)]);
            && InStep(w)
            && Next(w, ExpungeAll) == Some(World([0x20], [0x20], [Some(0)]))
            && Next(World([0x20], [0x20], [Some(0)]), Tell) == Some(World([0x20], [0x20], [Some(0)]))
  {
    hide Next;
    ExpungeOne(0x20, 0, Some(0));
    NothingToTell([Some(0)], [0x20]);
  }

  lemma NothingToTell(c: seq<Option<int>>, flags: seq<int>)
    requires |c| == |flags|
    ensures Next(World(flags, flags, c), Tell) == Some(World(flags, flags, c))
  {
    hide Hear;
    var n := |c|;
    HearChanges(c, flags, flags, n);
    HearAppend(c, Changes(flags, flags, n), [Exists(n), Recent(RecentCount(flags))]);
    assert Told(c, flags, flags, n) == c;
    HearTotals(c, n, RecentCount(flags));
    assert c + seq(0, _ => None) == c;
  }
}
