/** The flag table and a client along a run: the methods of the table do the steps that the
    theorems on runs are about. */
module ClientServer {
  import opened Common
  import opened Expunge
  import opened Sync
  import opened ClientView

  /** What the client knows after a step, from the responses it was sent; of a silent
      store it works the flags out itself. */
  function Knows(c: seq<Option<int>>, s: Step, told: seq<Event>): Option<seq<Option<int>>> {
    Hear(if s.Store? && !s.ack && 1 <= s.msgno <= |c| then StoredBy(c, s.msgno, s.op) else c, told)
  }

  /** A FETCH of text names its message, whatever flags it tells. */
  predicate Names(c: seq<Option<int>>, s: Step) {
    s.Read? ==> s.msgno <= |c|
  }

  ghost predicate Ready(t: FlagTable)
    reads t, t.attr_table, t.mbox
  {
    t.Valid() && t.valid && t.mbox != null && !t.corrupt && !t.silent_expunge
  }

  ghost function Now(t: FlagTable, c: seq<Option<int>>): World
    requires Ready(t)
    reads t, t.attr_table, t.mbox
  {
    World(t.mbox.flags, t.Table(), c)
  }

  /** What the environment did before a synchronisation, and the synchronisation. */
  method DoSync(t: FlagTable, s: Step)
    requires Ready(t) && (s.Tell? || s.Quiet? || s.Reopen?)
    requires s.Quiet? ==> t.count == |t.mbox.flags|
    modifies t, t.attr_table, t.mbox
    ensures Ready(t) && t.mbox == old(t.mbox) && (t.attr_table == old(t.attr_table) || fresh(t.attr_table))
    ensures s.Tell? ==> t.mbox.flags == old(t.mbox.flags) == t.Table()
                        && t.out == old(t.out) + Notice(true, old(t.Table()), t.mbox.flags)
    ensures s.Quiet? ==> t.mbox.flags == old(t.mbox.flags) && t.Table() == old(t.Table()) && t.out == old(t.out)
    ensures s.Reopen? ==> t.mbox.flags == s.now == t.Table()
                          && t.out == old(t.out) + ([Alert] + Notice(false, [], s.now))
  {
    hide Notice;
    t.mbox.updated := s.Quiet?;
    t.corrupt := s.Reopen?;
    ghost var sent := t.out;
    var bye := t.Sync(true, if s.Reopen? then s.now else []);
    if s.Reopen? {
      AppendAssoc(sent, [Alert], Notice(false, [], s.now));
    }
  }

  /** The FETCH commands: one of flags, and one of text, which marks a message as read. */
  method DoFetch(t: FlagTable, s: Step)
    requires Ready(t) && (s.Ask? || s.Read?) && 1 <= s.msgno <= |t.mbox.flags|
    modifies t`out, t.mbox`flags
    ensures Ready(t) && t.Table() == old(t.Table())
    ensures var f := old(t.mbox.flags[s.msgno - 1]);
            && (s.Ask? ==> t.mbox.flags == old(t.mbox.flags) && t.out == old(t.out) + [FetchFlags(s.msgno, f)])
            && (s.Read? && IsRead(f) ==> t.mbox.flags == old(t.mbox.flags) && t.out == old(t.out))
            && (s.Read? && !IsRead(f) ==> t.mbox.flags == old(t.mbox.flags)[s.msgno - 1 := f + ATTR_READ]
                                          && t.out == old(t.out) + [FetchFlags(s.msgno, SEEN_ALONE)])
  {
    var f := t.mbox.flags[s.msgno - 1];
    if s.Ask? {
      t.out := t.out + [FetchFlags(s.msgno, f)];
    } else if !IsRead(f) {
      t.mbox.flags := t.mbox.flags[s.msgno - 1 := f + ATTR_READ];
      t.out := t.out + [FetchFlags(s.msgno, SEEN_ALONE)];
    }
  }

  /** One step on the table and the mailbox, as the world of the client has it.  A true
      result stands for a write behind the table. */
  method Perform(t: FlagTable, s: Step, ghost c: seq<Option<int>>) returns (overrun: bool)
    requires Ready(t) && Enabled(Now(t, c), s) && Names(c, s)
    modifies t, t.attr_table, t.mbox
    ensures overrun ==> s.Store? && s.msgno > |old(t.Table())|
    ensures t.mbox == old(t.mbox) && (t.attr_table == old(t.attr_table) || fresh(t.attr_table))
    ensures old(t.out) <= t.out && (!overrun ==> Ready(t))
    ensures !overrun ==> var known := Knows(c, s, t.out[|old(t.out)|..]);
                         Next(old(Now(t, c)), s) == if known.Some? then Some(Now(t, known.value)) else None
  {
    hide Hear, Notice, Survivors, Deleted, Reports, ExpungedLines, IsRead;
    overrun := false;
    ghost var sent := t.out;
    HearNothing(c);
    match s {
      case Outside(now) =>
        t.mbox.flags := now;
      case Store(n, op, ack) =>
        if n <= |c| {
          HearNothing(StoredBy(c, n, op));
        }
        overrun := t.DoStore(n, op, ack);
      case Ask(n) =>
        DoFetch(t, s);
      case Read(n) =>
        DoFetch(t, s);
      case Tell =>
        DoSync(t, s);
      case Quiet =>
        DoSync(t, s);
      case ExpungeAll =>
        ExpungeSent(t.out, t.mbox.flags);
        var bye := t.ExpungeCommand(0);
      case Reopen(now) =>
        DoSync(t, s);
    }
    assert t.out == sent + t.out[|sent|..];
  }

  lemma HearNothing(c: seq<Option<int>>)
    ensures Hear(c, []) == Some(c)
  {
  }

  lemma ExpungeSent(out: seq<Event>, flags: seq<int>)
    ensures var deleted := Deleted(flags);
            var left := Survivors(flags, deleted);
            out + ExpungedLines(Reports(deleted, 0, 0)) + [Exists(|left|), Recent(RecentCount(left))]
            == out + (ExpungedLines(Reports(deleted, 0, 0)) + Notice(false, [], left))
  {
    hide Survivors, Deleted, Reports, ExpungedLines;
  }

  lemma CleanPrefix(w: World, steps: seq<Step>, n: nat)
    requires n <= |steps| && forall k :: 0 <= k < |steps| ==> CleanAt(w, steps, k)
    ensures forall k :: 0 <= k < n ==> CleanAt(w, steps[..n], k)
  {
    hide Clean, Enabled, Last;
    forall k | 0 <= k < n ensures CleanAt(w, steps[..n], k) {
      assert CleanAt(w, steps, k) && steps[..n][..k] == steps[..k] && steps[..n][k] == steps[k];
    }
  }

  /** What a clean run allows where it has come to. */
  lemma CleanHere(w: World, steps: seq<Step>, k: nat)
    requires InStep(w) && k < |steps| && forall j :: 0 <= j < |steps| ==> CleanAt(w, steps, j)
    ensures Last(w, steps[..k]).Some? && InStep(Last(w, steps[..k]).value)
    ensures Enabled(Last(w, steps[..k]).value, steps[k]) && Names(Last(w, steps[..k]).value.client, steps[k])
    ensures Last(w, steps[..k + 1]) == Next(Last(w, steps[..k]).value, steps[k])
    ensures Last(w, steps[..k + 1]).Some?
  {
    hide Next, Enabled, InStep, Last;
    CleanPrefix(w, steps, k);
    CleanPrefix(w, steps, k + 1);
    RunInStep(w, steps[..k]);
    RunInStep(w, steps[..k + 1]);
    assert CleanAt(w, steps, k);
    LastNext(w, steps[..k + 1]);
    assert steps[..k + 1][..k] == steps[..k];
  }

  /** A whole run on the table and the mailbox: unless a store was written behind the
      table, the client that hears what was sent is in step at the end, and right after a
      notification the table is the mailbox. */
  method PerformAll(t: FlagTable, steps: seq<Step>, ghost c: seq<Option<int>>)
    returns (overrun: bool, ghost known: seq<Option<int>>)
    requires Ready(t) && InStep(Now(t, c)) && forall k :: 0 <= k < |steps| ==> CleanAt(Now(t, c), steps, k)
    modifies t, t.attr_table, t.mbox
    ensures !overrun ==> Ready(t) && Last(old(Now(t, c)), steps) == Some(Now(t, known)) && InStep(Now(t, known))
    ensures !overrun && steps != [] && steps[|steps| - 1].Tell? ==> t.Table() == t.mbox.flags
  {
    hide Next, Enabled, InStep, Last, CleanAt, Names, Hear;
    overrun, known := false, c;
    ghost var start := Now(t, c);
    StartOf(start);
    for k := 0 to |steps|
      invariant t.mbox == old(t.mbox) && (t.attr_table == old(t.attr_table) || fresh(t.attr_table))
      invariant Ready(t) && Last(start, steps[..k]) == Some(Now(t, known))
    {
      CleanHere(start, steps, k);
      ghost var sent := t.out;
      overrun := Perform(t, steps[k], known);
      if overrun {
        return;
      }
      known := Knows(known, steps[k], t.out[|sent|..]).value;
    }
    assert steps[..|steps|] == steps;
    RunInStep(start, steps);
  }

  lemma StartOf(w: World)
    ensures Last(w, []) == Some(w)
  {
  }
}
