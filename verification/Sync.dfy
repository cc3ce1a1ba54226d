/** Keeping the client informed: the flag table, the notifications made from it and
    the numbers reported for expunged messages. */
module Sync {
  import opened Common
  import opened Expunge

  /** Untagged responses. */
  datatype Event =
    | FetchFlags(msgno: nat, flags: int)
    | Exists(total: nat)
    | Recent(recent: nat)
    | Expunged(msgno: nat)
    | Alert

  /** The FETCH lines for the first `n` messages whose flags differ. */
  function Changes(before: seq<int>, now: seq<int>, n: nat): (r: seq<Event>)
    requires n <= |before| && n <= |now|
  {
    if n == 0 then []
    else Changes(before, now, n - 1) + if now[n - 1] != before[n - 1] then [FetchFlags(n, now[n - 1])] else []
  }

  function Min(a: nat, b: nat): nat {
    if a < b then a else b
  }

  /** What notify sends. */
  function Notice(valid: bool, before: seq<int>, now: seq<int>): seq<Event> {
    (if valid then Changes(before, now, Min(|before|, |now|)) else []) + [Exists(|now|), Recent(RecentCount(now))]
  }

  /** A line for each old position whose flags differ, with the new flags, and no other. */
  lemma {:induction false} ChangesExactly(before: seq<int>, now: seq<int>, n: nat)
    requires n <= |before| && n <= |now|
    ensures forall e :: e in Changes(before, now, n) <==>
              e.FetchFlags? && 1 <= e.msgno <= n && e.flags == now[e.msgno - 1] && e.flags != before[e.msgno - 1]
  {
    if n > 0 {
      ChangesExactly(before, now, n - 1);
    }
  }

  // ---------- the table ----------

  /** The mailbox in use: the flags of its messages, and whether the program sees it
      as it is on disk. */
  class Mailbox {
    var flags: seq<int>
    var updated: bool

    constructor (flags: seq<int>)
      ensures this.flags == flags
    {
      this.flags, updated := flags, true;
    }

    /** mu_mailbox_messages_recent */
    method MessagesRecent() returns (count: nat)
      ensures count == RecentCount(flags)
    {
      count := 0;
      for i := 0 to |flags|
        invariant count == RecentCount(flags[..i])
      {
        RecentNext(flags, i);
        if IsRecent(flags[i]) {
          count := count + 1;
        }
      }
      assert flags[..|flags|] == flags;
    }

    /** mu_mailbox_close and mu_mailbox_open: what is then found is up to the disk */
    method Reopen(ok: bool, onDisk: seq<int>)
      modifies this
      ensures ok ==> flags == onDisk
      ensures !ok ==> flags == old(flags)
    {
      if ok {
        flags, updated := onDisk, true;
      }
    }
  }

  class FlagTable {
    var mbox: Mailbox?
    var attr_table: array?<int>
    var count: nat
    var valid: bool
    var corrupt: bool
    var silent_expunge: bool
    var out: seq<Event>

    ghost predicate Valid()
      reads this
    {
      && count <= Max()
      && (valid ==> mbox != null)
    }

    /** attr_table_max */
    function Max(): nat
      reads this
    {
      if attr_table == null then 0 else attr_table.Length
    }

    /** The table as far as it is in use. */
    function Table(): (r: seq<int>)
      requires count <= Max()
      reads this, attr_table
      ensures |r| == count
    {
      if attr_table == null then [] else attr_table[..count]
    }

    /** The whole table, entries out of use included. */
    ghost function All(): (r: seq<int>)
      reads this, attr_table
      ensures |r| == Max()
    {
      if attr_table == null then [] else attr_table[..]
    }

    constructor ()
      ensures Valid() && mbox == null && attr_table == null && !valid && out == []
    {
      mbox, attr_table, count, valid := null, null, 0, false;
      corrupt, silent_expunge, out := false, false, [];
    }

    /** realloc_attributes */
    method Realloc(total: nat)
      requires count <= Max()
      modifies this`attr_table, this`count
      ensures count == total <= Max()
      ensures attr_table == old(attr_table) || fresh(attr_table)
      ensures Max() >= old(Max())
      ensures attr_table != null && old(attr_table) != null ==>
                forall i :: 0 <= i < old(attr_table.Length) ==> attr_table[i] == old(attr_table[i])
    {
      if total > Max() {
        var more := new int[total];
        if attr_table != null {
          forall i | 0 <= i < attr_table.Length {
            more[i] := attr_table[i];
          }
        }
        attr_table := more;
      }
      count := total;
    }

    /** imap4d_sync_invalidate */
    method Invalidate()
      modifies this`valid, this`count
      ensures !valid && count == 0
    {
      valid, count := false, 0;
    }

    /** reread_attributes */
    method Reread()
      requires Valid() && mbox != null
      modifies this`attr_table, this`count, this`valid, attr_table
      ensures Valid() && valid && Table() == mbox.flags
      ensures attr_table == old(attr_table) || fresh(attr_table)
    {
      var total := |mbox.flags|;
      Realloc(total);
      for i := 1 to total + 1
        invariant count == total <= Max() && (attr_table == old(attr_table) || fresh(attr_table))
        invariant forall k :: 0 <= k < i - 1 ==> attr_table[k] == mbox.flags[k]
      {
        attr_table[i - 1] := mbox.flags[i - 1];
      }
      valid := true;
    }

    /** The loop of notify over a table that was valid. */
    method Compare(old_total: nat)
      requires Valid() && mbox != null && count == |mbox.flags|
      requires old_total <= Max()
      modifies this`out, attr_table
      ensures count <= Max() && Table() == mbox.flags
      ensures out == old(out) + Changes(old(All()), mbox.flags, Min(count, old_total))
    {
      ghost var before := All();
      ghost var sent := out;
      for i := 1 to count + 1
        invariant out == sent + Changes(before, mbox.flags, Min(i - 1, old_total))
        invariant forall k :: 0 <= k < i - 1 ==> attr_table[k] == mbox.flags[k]
        invariant forall k :: i - 1 <= k < Max() ==> attr_table[k] == before[k]
      {
        var nflags := mbox.flags[i - 1];
        if i <= old_total {
          if nflags != attr_table[i - 1] {
            out := out + [FetchFlags(i, nflags)];
            attr_table[i - 1] := nflags;
          }
        } else {
          attr_table[i - 1] := nflags;
        }
      }
    }

    /** notify */
    method Notify()
      requires Valid() && mbox != null
      modifies this, attr_table
      ensures Valid() && valid && Table() == mbox.flags
      ensures out == old(out) + Notice(old(valid), old(Table()), mbox.flags)
      ensures mbox == old(mbox) && corrupt == old(corrupt) && silent_expunge == old(silent_expunge)
      ensures attr_table == old(attr_table) || fresh(attr_table)
    {
      hide RecentCount;
      ghost var sent, before := out, Table();
      var recent := mbox.MessagesRecent();
      if !valid {
        Reread();
      } else {
        var old_total := count;
        Realloc(|mbox.flags|);
        ghost var all := All();
        assert all[..old_total] == before;
        ChangesPrefix(all, before, mbox.flags, Min(count, old_total));
        Compare(old_total);
      }
      out := out + [Exists(|mbox.flags|), Recent(recent)];
    }

    /** imap4d_sync_flags.  The source does not compare `msgno` with the table; a true
        result stands for a write behind its end, of which nothing else is said. */
    method SyncFlags(msgno: nat) returns (overrun: bool)
      requires Valid() && mbox != null && 1 <= msgno <= |mbox.flags|
      modifies attr_table
      ensures overrun <==> attr_table != null && msgno > Max()
      ensures !overrun ==>
                Table() == if msgno <= count then old(Table())[msgno - 1 := mbox.flags[msgno - 1]] else old(Table())
    {
      overrun := attr_table != null && msgno > attr_table.Length;
      if attr_table != null && !overrun {
        attr_table[msgno - 1] := mbox.flags[msgno - 1];
      }
    }

    /** _do_store; `op` is what the command does to the flags */
    method DoStore(msgno: nat, op: int -> int, ack: bool) returns (overrun: bool)
      requires Valid() && mbox != null && 1 <= msgno <= |mbox.flags|
      modifies this`out, mbox`flags, attr_table
      ensures overrun <==> attr_table != null && msgno > Max()
      ensures msgno <= count ==> !overrun
      ensures mbox.flags == old(mbox.flags)[msgno - 1 := op(old(mbox.flags[msgno - 1]))]
      ensures !overrun ==>
                Table() == if msgno <= count then old(Table())[msgno - 1 := op(old(mbox.flags[msgno - 1]))]
                           else old(Table())
      ensures out == old(out) + if ack then [FetchFlags(msgno, op(old(mbox.flags[msgno - 1])))] else []
    {
      var flags := op(mbox.flags[msgno - 1]);
      mbox.flags := mbox.flags[msgno - 1 := flags];
      if ack {
        out := out + [FetchFlags(msgno, flags)];
      }
      overrun := SyncFlags(msgno);
    }

    /** action: the mailbox reports a message that goes */
    method OnExpunge(exp0: nat, exp1: nat)
      requires exp1 <= exp0
      modifies this`out
      ensures out == old(out) + if silent_expunge then [] else [Expunged(exp0 - exp1)]
    {
      if !silent_expunge {
        out := out + [Expunged(exp0 - exp1)];
      }
    }

    /** The scan of the mailbox from its first modified message on. */
    method ExpungeMailbox(first: nat)
      requires mbox != null && first <= |mbox.flags|
      requires forall k :: 0 <= k < first ==> !IsDeleted(mbox.flags[k])
      modifies this`out, mbox`flags
      ensures mbox.flags == Survivors(old(mbox.flags), Deleted(old(mbox.flags)))
      ensures out == old(out) + if silent_expunge then [] else ExpungedLines(Reports(Deleted(old(mbox.flags)), 0, 0))
    {
      hide Survivors, IsDeleted, ExpungedLines;
      ghost var sent := out;
      var flags := mbox.flags;
      ghost var deleted := Deleted(flags);
      ReportsSkip(deleted, first, 0);
      var kept := flags[..first];
      KeptAll(flags[..first], deleted[..first]);
      var expcount := 0;
      var i := first;
      ghost var told: seq<nat> := [];
      LinesNext(told, 0);
      assert sent + [] == sent && told + Reports(deleted, i, expcount) == Reports(deleted, i, expcount);
      while i < |flags|
        invariant expcount <= i <= |flags|
        invariant kept == Survivors(flags[..i], deleted[..i])
        invariant Reports(deleted, 0, 0) == told + Reports(deleted, i, expcount)
        invariant out == sent + if silent_expunge then [] else ExpungedLines(told)
      {
        SurvivorsNext(flags, deleted, i);
        if IsDeleted(flags[i]) {
          OnExpunge(i + 1, expcount);
          LinesNext(told, i + 1 - expcount);
          told := told + [i + 1 - expcount];
          expcount := expcount + 1;
        } else {
          kept := kept + [flags[i]];
        }
        i := i + 1;
      }
      assert flags[..i] == flags && deleted[..i] == deleted;
      assert told + [] == told;
      mbox.flags := kept;
    }

    /** imap4d_sync.  A true result stands for the end of the session (imap4d_bye). */
    method Sync(reopened: bool, onDisk: seq<int>) returns (bye: bool)
      requires Valid()
      modifies this, attr_table, mbox
      ensures Valid() && mbox == old(mbox) && silent_expunge == old(silent_expunge)
      ensures attr_table == old(attr_table) || fresh(attr_table)
      ensures mbox == null ==> !bye && !valid && count == 0 && out == old(out)
      ensures mbox != null && !(old(corrupt) && (!old(valid) || !old(mbox.updated))) ==>
                && !bye && mbox.flags == old(mbox.flags) && corrupt == old(corrupt)
                && if !old(valid) || !old(mbox.updated) || old(count) != |mbox.flags|
                   then Table() == mbox.flags
                     && out == old(out) + Notice(old(valid), old(Table()), mbox.flags)
                   else Table() == old(Table()) && out == old(out)
      ensures mbox != null && old(corrupt) && (!old(valid) || !old(mbox.updated)) ==>
                && bye == !reopened
                && (reopened ==> mbox.flags == onDisk == Table() && !corrupt
                                 && out == old(out) + [Alert] + Notice(false, [], onDisk))
      ensures !bye && mbox != null ==> valid && count == |mbox.flags|
    {
      bye := false;
      if mbox == null {
        Invalidate();
      } else if !valid || !mbox.updated {
        if corrupt {
          mbox.Reopen(reopened, onDisk);
          if !reopened {
            return true;
          }
          Invalidate();
          corrupt := false;
          out := out + [Alert];
        }
        Notify();
      } else if |mbox.flags| != count {
        Notify();
      }
    }

    /** imap4d_expunge: the table is dropped, and read anew by the synchronisation */
    method ExpungeCommand(first: nat) returns (bye: bool)
      requires Valid() && mbox != null && first <= |mbox.flags| && !corrupt
      requires forall k :: 0 <= k < first ==> !IsDeleted(mbox.flags[k])
      modifies this, attr_table, mbox
      ensures !bye && Valid() && valid && mbox == old(mbox)
      ensures corrupt == old(corrupt) && silent_expunge == old(silent_expunge)
      ensures attr_table == old(attr_table) || fresh(attr_table)
      ensures mbox.flags == Survivors(old(mbox.flags), Deleted(old(mbox.flags))) == Table()
      ensures out == old(out)
                + (if silent_expunge then [] else ExpungedLines(Reports(Deleted(old(mbox.flags)), 0, 0)))
                + [Exists(|mbox.flags|), Recent(RecentCount(mbox.flags))]
    {
      ExpungeMailbox(first);
      ghost var sent := out;
      Invalidate();
      bye := Sync(false, []);
      assert out == sent + [Exists(|mbox.flags|), Recent(RecentCount(mbox.flags))];
    }
  }

  const ATTR_DELETED: int := 0x04
  const ATTR_SEEN: int := 0x10

  /** MU_ATTRIBUTE_IS_UNSEEN */
  predicate IsRecent(flags: int) {
    flags / ATTR_SEEN % 2 == 0
  }

  /** How many messages are recent. */
  function RecentCount(flags: seq<int>): nat {
    if flags == [] then 0
    else RecentCount(flags[..|flags| - 1]) + if IsRecent(flags[|flags| - 1]) then 1 else 0
  }

  lemma RecentNext(flags: seq<int>, i: nat)
    requires i < |flags|
    ensures RecentCount(flags[..i + 1]) == RecentCount(flags[..i]) + if IsRecent(flags[i]) then 1 else 0
    ensures RecentCount(flags[..0]) == 0
  {
    assert flags[..i + 1][..i] == flags[..i];
  }

  predicate IsDeleted(flags: int) {
    flags / ATTR_DELETED % 2 == 1
  }

  function Deleted(flags: seq<int>): seq<bool> {
    seq(|flags|, i requires 0 <= i < |flags| => IsDeleted(flags[i]))
  }

  function ExpungedLines(numbers: seq<nat>): seq<Event> {
    seq(|numbers|, i requires 0 <= i < |numbers| => Expunged(numbers[i]))
  }

  lemma LinesNext(numbers: seq<nat>, n: nat)
    ensures ExpungedLines(numbers + [n]) == ExpungedLines(numbers) + [Expunged(n)] && ExpungedLines([]) == []
  {
  }

  lemma {:induction false} KeptAll<T>(xs: seq<T>, deleted: seq<bool>)
    requires |xs| == |deleted| && forall k :: 0 <= k < |xs| ==> !deleted[k]
    ensures Survivors(xs, deleted) == xs
  {
    if xs != [] {
      KeptAll(xs[..|xs| - 1], deleted[..|xs| - 1]);
    }
  }

  /** The lines depend on the flags of the first messages only. */
  lemma {:induction false} ChangesPrefix(a: seq<int>, b: seq<int>, now: seq<int>, n: nat)
    requires n <= |a| && n <= |b| && n <= |now| && forall k :: 0 <= k < n ==> a[k] == b[k]
    ensures Changes(a, now, n) == Changes(b, now, n)
  {
    if n > 0 {
      ChangesPrefix(a, b, now, n - 1);
    }
  }
}
