/** COPY: the walk over the message set, the attempt, and the rollback of a failed one. */
module Copy {
  import opened Common

  /** What asking the source mailbox for a message gives: the message, "no such
      message", or another error. */
  datatype Fetch = Found(text: string) | Missing | Broken

  datatype Range = Range(beg: nat, end: nat)

  /** The source, and how each step on a message will turn out. */
  datatype World = World(src: nat -> Fetch, sizeFails: nat -> bool, appendFails: nat -> bool)

  datatype Phase = Sizing | Copying

  // ---------- the walk (mu_msgset_foreach_message) ----------

  /** The messages handled, `env.ret`, and the status of the last call. */
  datatype Walk = Walk(done: seq<nat>, failed: bool, rc: bool)

  function Fails(w: World, phase: Phase, i: nat): bool {
    if phase == Sizing then w.sizeFails(i) else w.appendFails(i)
  }

  /** call_action with size_sum or do_copy: a missing message is passed over, and every
      call overwrites the status of the one before. */
  function Call(w: World, phase: Phase, i: nat, k: Walk): Walk {
    match w.src(i)
    case Missing => k.(rc := false)
    case Broken => k.(rc := true)
    case Found(_) =>
      if Fails(w, phase, i) then k.(failed := true, rc := true) else k.(done := k.done + [i], rc := false)
  }

  /** procrange, forwards: the numbers from `beg` to below `end` */
  function RangeWalk(w: World, phase: Phase, beg: nat, end: nat, k: Walk): Walk {
    if end <= beg then k.(rc := false) else Call(w, phase, end - 1, RangeWalk(w, phase, beg, end - 1, k))
  }

  /** The list of ranges stops at the first one whose last call failed. */
  function ListWalk(w: World, phase: Phase, ranges: seq<Range>, k: Walk): Walk
    decreases |ranges|
  {
    if ranges == [] then k.(rc := false)
    else
      var r := RangeWalk(w, phase, ranges[0].beg, ranges[0].end + 1, k);
      if r.rc then r else ListWalk(w, phase, ranges[1..], r)
  }

  const START: Walk := Walk([], false, false)

  function WholeWalk(w: World, phase: Phase, ranges: seq<Range>): Walk {
    ListWalk(w, phase, ranges, START)
  }

  // ---------- the destination ----------

  /** A stored message.  `deleted` and `seen` are attribute flags, `marked` is the
      DELETED bit among the user flags. */
  datatype Msg = Msg(uid: nat, text: string, deleted: bool, marked: bool, seen: bool)

  /** A mailbox apart from its flags. */
  function Texts(ms: seq<Msg>): seq<(nat, string)> {
    seq(|ms|, i requires 0 <= i < |ms| => (ms[i].uid, ms[i].text))
  }

  function TextOf(f: Fetch): string {
    if f.Found? then f.text else ""
  }

  /** Copies arrive with new UIDs, from `next` on, and without flags. */
  function Copies(w: World, numbers: seq<nat>, next: nat): seq<Msg> {
    seq(|numbers|, i requires 0 <= i < |numbers| => Msg(next + i, TextOf(w.src(numbers[i])), false, false, false))
  }

  /** Flushing with expunge: every message becomes seen, and those with the DELETED
      attribute go.  `honoured` says whether the user flags count as well; in the
      mailbox formats of the library they do not. */
  function Flushed(ms: seq<Msg>, honoured: bool): seq<Msg> {
    if ms == [] then []
    else
      (if ms[0].deleted || (honoured && ms[0].marked) then [] else [ms[0].(seen := true)])
      + Flushed(ms[1..], honoured)
  }

  /** The user flag set on the messages from `n` on. */
  function Marked(ms: seq<Msg>, n: nat): seq<Msg> {
    seq(|ms|, i requires 0 <= i < |ms| => if i < n then ms[i] else ms[i].(marked := true))
  }

  function Undeleted(ms: seq<Msg>): seq<Msg> {
    if ms == [] then [] else (if ms[0].deleted then [] else [ms[0]]) + Undeleted(ms[1..])
  }

  // ---------- the operations ----------

  datatype Resp = RespOk | RespNo | RespBad

  /** Whether counting (twice) and flushing the destination work, and the quota check. */
  datatype Luck = Luck(count: bool, quota: bool, recount: bool, flush: bool)

  function Attempt(w: World, ranges: seq<Range>, luck: Luck): Resp {
    var s := WholeWalk(w, Sizing, ranges);
    var c := WholeWalk(w, Copying, ranges);
    if s.rc then RespNo else if s.failed then RespBad
    else if !luck.quota then RespNo
    else if c.rc then RespNo else if c.failed then RespBad else RespOk
  }

  /** The numbers of the messages that an attempt appends. */
  function Appended(w: World, ranges: seq<Range>, luck: Luck): seq<nat> {
    var s := WholeWalk(w, Sizing, ranges);
    if s.rc || s.failed || !luck.quota then [] else WholeWalk(w, Copying, ranges).done
  }

  class CopyEnv {
    const w: World
    var dst: seq<Msg>
    var uidnext: nat
    var failed: bool
    ghost var done: seq<nat>

    constructor (w: World, dst: seq<Msg>, uidnext: nat)
      ensures this.w == w && this.dst == dst && this.uidnext == uidnext && !failed && done == []
    {
      this.w, this.dst, this.uidnext, failed, done := w, dst, uidnext, false, [];
    }

    /** What came to the destination since some earlier time, whose values come first. */
    ghost predicate Added(phase: Phase, dst0: seq<Msg>, uidnext0: nat, done0: seq<nat>,
                          dst1: seq<Msg>, uidnext1: nat, done1: seq<nat>)
    {
      done0 <= done1 &&
      var copies := if phase == Copying then Copies(w, done1[|done0|..], uidnext0) else [];
      dst1 == dst0 + copies && uidnext1 == uidnext0 + |copies|
    }

    lemma AddedMore(phase: Phase, dst0: seq<Msg>, uidnext0: nat, done0: seq<nat>,
                                       dst1: seq<Msg>, uidnext1: nat, done1: seq<nat>,
                                       dst2: seq<Msg>, uidnext2: nat, done2: seq<nat>)
      requires Added(phase, dst0, uidnext0, done0, dst1, uidnext1, done1)
      requires Added(phase, dst1, uidnext1, done1, dst2, uidnext2, done2)
      ensures Added(phase, dst0, uidnext0, done0, dst2, uidnext2, done2)
    {
      assert done2[|done0|..] == done1[|done0|..] + done2[|done1|..];
      CopiesMore(w, done1[|done0|..], done2[|done1|..], uidnext0);
    }

    /** call_action */
    method CallAction(phase: Phase, i: nat) returns (rc: bool)
      modifies this
      ensures Walk(done, failed, rc) == Call(w, phase, i, old(Walk(done, failed, false)))
      ensures Added(phase, old(dst), old(uidnext), old(done), dst, uidnext, done)
    {
      match w.src(i) {
        case Missing => rc := false;
        case Broken => rc := true;
        case Found(text) =>
          if phase == Sizing {
            rc := w.sizeFails(i);
          } else {
            rc := w.appendFails(i);
            if !rc {
              dst := dst + [Msg(uidnext, text, false, false, false)];
              uidnext := uidnext + 1;
            }
          }
          if rc {
            failed := true;
          } else {
            done := done + [i];
          }
      }
    }

    /** procrange, forwards */
    method ProcRange(phase: Phase, r: Range) returns (rc: bool)
      modifies this
      ensures Walk(done, failed, rc) == RangeWalk(w, phase, r.beg, r.end + 1, old(Walk(done, failed, false)))
      ensures Added(phase, old(dst), old(uidnext), old(done), dst, uidnext, done)
    {
      rc := false;
      var i := r.beg;
      ghost var start := Walk(done, failed, false);
      while i <= r.end
        invariant i <= r.end + 1 || i == r.beg
        invariant Walk(done, failed, rc) == RangeWalk(w, phase, r.beg, i, start)
        invariant Added(phase, old(dst), old(uidnext), old(done), dst, uidnext, done)
      {
        CallIgnoresStatus(w, phase, i, Walk(done, failed, rc));
        ghost var before, dst0, uidnext0 := done, dst, uidnext;
        rc := CallAction(phase, i);
        AddedMore(phase, old(dst), old(uidnext), old(done), dst0, uidnext0, before, dst, uidnext, done);
        i := i + 1;
      }
    }

    /** mu_msgset_foreach_message */
    method ForEach(phase: Phase, ranges: seq<Range>) returns (rc: bool)
      modifies this
      ensures Walk(done, failed, rc) == ListWalk(w, phase, ranges, old(Walk(done, failed, false)))
      ensures Added(phase, old(dst), old(uidnext), old(done), dst, uidnext, done)
    {
      hide RangeWalk, Call;
      rc := false;
      ghost var all := ListWalk(w, phase, ranges, Walk(done, failed, false));
      for k := 0 to |ranges|
        invariant !rc && all == ListWalk(w, phase, ranges[k..], Walk(done, failed, false))
        invariant Added(phase, old(dst), old(uidnext), old(done), dst, uidnext, done)
      {
        ghost var before, dst0, uidnext0 := done, dst, uidnext;
        rc := ProcRange(phase, ranges[k]);
        AddedMore(phase, old(dst), old(uidnext), old(done), dst0, uidnext0, before, dst, uidnext, done);
        if rc {
          return;
        }
        assert ranges[k..][1..] == ranges[k + 1..];
      }
    }

    /** try_copy */
    method TryCopy(ranges: seq<Range>, luck: Luck) returns (r: Resp)
      modifies this
      ensures r == Attempt(w, ranges, luck)
      ensures dst == old(dst) + Copies(w, Appended(w, ranges, luck), old(uidnext))
    {
      hide ListWalk;
      failed, done := false, [];
      var rc := ForEach(Sizing, ranges);
      assert dst == old(dst) + Copies(w, [], uidnext) && uidnext == old(uidnext);
      if rc {
        return RespNo;
      }
      if failed {
        return RespBad;
      }
      if !luck.quota {
        return RespNo;
      }
      done := [];
      rc := ForEach(Copying, ranges);
      assert done[0..] == done;
      if rc {
        return RespNo;
      }
      r := if failed then RespBad else RespOk;
    }

    /** safe_copy; `bye` says that the session ends */
    method SafeCopy(ranges: seq<Range>, luck: Luck) returns (r: Resp, bye: bool)
      modifies this
      ensures (dst, r, bye) == Outcome(w, ranges, luck, old(dst), old(uidnext))
    {
      hide Attempt, Appended, Flushed, Copies;
      bye := false;
      if !luck.count {
        return RespNo, false;
      }
      var nmesg := |dst|;
      r := TryCopy(ranges, luck);
      if r != RespOk {
        if !luck.recount {
          return RespNo, true;
        }
        Mark(nmesg);
        if !luck.flush {
          return RespNo, true;
        }
        dst := Flushed(dst, false);
        r := RespNo;
      }
    }

    /** The loop that marks the messages behind the first `nmesg`. */
    method Mark(nmesg: nat)
      requires nmesg <= |dst|
      modifies this`dst
      ensures dst == Marked(old(dst), nmesg)
    {
      var maxmesg := |dst|;
      for n := nmesg + 1 to maxmesg + 1
        invariant |dst| == maxmesg
        invariant forall i :: 0 <= i < maxmesg ==>
                    dst[i] == if nmesg <= i < n - 1 then old(dst[i]).(marked := true) else old(dst[i])
      {
        dst := dst[n - 1 := dst[n - 1].(marked := true)];
      }
    }
  }

  /** What a COPY leaves in the destination, what it answers, and whether it ends the
      session. */
  function Outcome(w: World, ranges: seq<Range>, luck: Luck, old_: seq<Msg>, next: nat): (seq<Msg>, Resp, bool) {
    if !luck.count then (old_, RespNo, false)
    else
      var now := old_ + Copies(w, Appended(w, ranges, luck), next);
      if Attempt(w, ranges, luck) == RespOk then (now, RespOk, false)
      else if !luck.recount then (now, RespNo, true)
      else if !luck.flush then (Marked(now, |old_|), RespNo, true)
      else (Flushed(Marked(now, |old_|), false), RespNo, false)
  }

  lemma CallIgnoresStatus(w: World, phase: Phase, i: nat, k: Walk)
    ensures Call(w, phase, i, k) == Call(w, phase, i, k.(rc := false))
  {
  }

  lemma CopiesMore(w: World, a: seq<nat>, b: seq<nat>, next: nat)
    ensures Copies(w, a + b, next) == Copies(w, a, next) + Copies(w, b, next + |a|)
  {
  }

  // ---------- a successful copy ----------

  /** The messages of a set that exist, in the order of the set. */
  function FoundIn(w: World, beg: nat, end: nat): seq<nat> {
    if end <= beg then [] else FoundIn(w, beg, end - 1) + if w.src(end - 1).Found? then [end - 1] else []
  }

  function FoundAll(w: World, ranges: seq<Range>): seq<nat> {
    if ranges == [] then [] else FoundIn(w, ranges[0].beg, ranges[0].end + 1) + FoundAll(w, ranges[1..])
  }

  /** A walk without failed actions handled every message it found. */
  lemma {:induction false} RangeDone(w: World, phase: Phase, beg: nat, end: nat, k: Walk)
    ensures var r := RangeWalk(w, phase, beg, end, k);
            && k.done <= r.done && (k.failed ==> r.failed)
            && (!r.failed ==> r.done == k.done + FoundIn(w, beg, end))
            && (r.failed ==> k.failed || exists i :: beg <= i < end && w.src(i).Found? && Fails(w, phase, i))
  {
    if beg < end {
      RangeDone(w, phase, beg, end - 1, k);
    }
  }

  lemma {:induction false} ListDone(w: World, phase: Phase, ranges: seq<Range>, k: Walk)
    requires !ListWalk(w, phase, ranges, k).rc && !ListWalk(w, phase, ranges, k).failed
    ensures ListWalk(w, phase, ranges, k).done == k.done + FoundAll(w, ranges)
    decreases |ranges|
  {
    hide RangeWalk, FoundIn;
    if ranges != [] {
      var r := RangeWalk(w, phase, ranges[0].beg, ranges[0].end + 1, k);
      RangeDone(w, phase, ranges[0].beg, ranges[0].end + 1, k);
      ListKeepsFailure(w, phase, ranges[1..], r);
      ListDone(w, phase, ranges[1..], r);
      var a, b := FoundIn(w, ranges[0].beg, ranges[0].end + 1), FoundAll(w, ranges[1..]);
      assert k.done + a + b == k.done + (a + b);
    }
  }

  lemma {:induction false} ListKeepsFailure(w: World, phase: Phase, ranges: seq<Range>, k: Walk)
    ensures k.failed ==> ListWalk(w, phase, ranges, k).failed
    decreases |ranges|
  {
    hide RangeWalk;
    if ranges != [] {
      RangeDone(w, phase, ranges[0].beg, ranges[0].end + 1, k);
      ListKeepsFailure(w, phase, ranges[1..], RangeWalk(w, phase, ranges[0].beg, ranges[0].end + 1, k));
    }
  }

  /** Every message of the range that can be read is handled, and the last one of the
      range is not unreadable. */
  predicate Clean(w: World, phase: Phase, beg: nat, end: nat) {
    && (forall i :: beg <= i < end && w.src(i).Found? ==> !Fails(w, phase, i))
    && (beg < end ==> !w.src(end - 1).Broken?)
  }

  lemma {:induction false} RangeOk(w: World, phase: Phase, beg: nat, end: nat, k: Walk)
    requires !k.failed
    ensures var r := RangeWalk(w, phase, beg, end, k);
            && (r.failed <==> exists i :: beg <= i < end && w.src(i).Found? && Fails(w, phase, i))
            && (!r.rc && !r.failed <==> Clean(w, phase, beg, end))
  {
    if beg < end {
      RangeOk(w, phase, beg, end - 1, k);
    }
  }

  lemma {:induction false} ListOk(w: World, phase: Phase, ranges: seq<Range>, k: Walk)
    requires !k.failed
    ensures var r := ListWalk(w, phase, ranges, k);
            !r.rc && !r.failed <==> forall j :: 0 <= j < |ranges| ==> Clean(w, phase, ranges[j].beg, ranges[j].end + 1)
    decreases |ranges|
  {
    hide RangeWalk, Clean;
    if ranges != [] {
      var r := RangeWalk(w, phase, ranges[0].beg, ranges[0].end + 1, k);
      RangeOk(w, phase, ranges[0].beg, ranges[0].end + 1, k);
      ListKeepsFailure(w, phase, ranges[1..], r);
      if !r.rc && !r.failed {
        ListOk(w, phase, ranges[1..], r);
        assert forall j :: 1 <= j < |ranges| ==> ranges[j] == ranges[1..][j - 1];
      }
    }
  }

  /** When a COPY answers OK. */
  lemma OkExactly(w: World, ranges: seq<Range>, luck: Luck, old_: seq<Msg>, next: nat)
    ensures Outcome(w, ranges, luck, old_, next).1 == RespOk
       <==> && luck.count && luck.quota
            && (forall j :: 0 <= j < |ranges| ==> Clean(w, Sizing, ranges[j].beg, ranges[j].end + 1))
            && (forall j :: 0 <= j < |ranges| ==> Clean(w, Copying, ranges[j].beg, ranges[j].end + 1))
  {
    hide ListWalk, Clean, Copies, Marked, Flushed;
    ListOk(w, Sizing, ranges, START);
    ListOk(w, Copying, ranges, START);
  }

  /** What COPY answers otherwise, when it ends the session, and when it leaves the
      destination alone: the answer is NO, even for a message that could not be appended;
      the session ends when the rollback cannot count or flush. */
  lemma FailedExactly(w: World, ranges: seq<Range>, luck: Luck, old_: seq<Msg>, next: nat)
    ensures var (after, r, bye) := Outcome(w, ranges, luck, old_, next);
            && (r == RespOk || r == RespNo)
            && (bye <==> luck.count && r != RespOk && !(luck.recount && luck.flush))
            && (!luck.count ==> r == RespNo && after == old_)
            && (bye ==> Texts(after) == Texts(old_) + Texts(Copies(w, Appended(w, ranges, luck), next)))
  {
    hide Attempt, Appended, Copies, Flushed;
    var copies := Copies(w, Appended(w, ranges, luck), next);
    TextsAppend(old_, copies);
    MarkedTexts(old_ + copies, |old_|);
  }

  lemma MarkedTexts(ms: seq<Msg>, n: nat)
    ensures Texts(Marked(ms, n)) == Texts(ms)
  {
  }

  lemma TextsAppend(a: seq<Msg>, b: seq<Msg>)
    ensures Texts(a + b) == Texts(a) + Texts(b)
  {
  }

  /** A COPY that answers OK leaves the old messages as they were, and behind them a
      copy of every message of the set that could be read, in the order of the set. */
  lemma CopiedAll(w: World, ranges: seq<Range>, luck: Luck, old_: seq<Msg>, next: nat)
    requires Outcome(w, ranges, luck, old_, next).1 == RespOk
    ensures Outcome(w, ranges, luck, old_, next).0 == old_ + Copies(w, FoundAll(w, ranges), next)
  {
    hide ListWalk, FoundAll, Flushed, Marked;
    ListDone(w, Copying, ranges, START);
    assert START.done + FoundAll(w, ranges) == FoundAll(w, ranges);
  }

  /** Each copy has the text of the message it was made from, a UID of its own in
      ascending order, and no flags. */
  lemma CopiesExactly(w: World, numbers: seq<nat>, next: nat)
    requires forall k :: 0 <= k < |numbers| ==> w.src(numbers[k]).Found?
    ensures var copies := Copies(w, numbers, next);
            && |copies| == |numbers|
            && forall k :: 0 <= k < |numbers| ==>
                 copies[k] == Msg(next + k, w.src(numbers[k]).text, false, false, false)
  {
    hide TextOf;
    var copies := Copies(w, numbers, next);
    forall k | 0 <= k < |numbers| ensures copies[k] == Msg(next + k, w.src(numbers[k]).text, false, false, false) {
      FoundText(w.src(numbers[k]));
    }
  }

  lemma FoundText(f: Fetch)
    requires f.Found?
    ensures TextOf(f) == f.text
  {
  }

  /** The messages of a range that exist, in ascending order. */
  lemma {:induction false} FoundExactly(w: World, beg: nat, end: nat, i: nat)
    ensures i in FoundIn(w, beg, end) <==> beg <= i < end && w.src(i).Found?
    ensures forall j, k :: 0 <= j < k < |FoundIn(w, beg, end)| ==> FoundIn(w, beg, end)[j] < FoundIn(w, beg, end)[k]
  {
    if beg < end {
      FoundExactly(w, beg, end - 1, i);
      var found := FoundIn(w, beg, end - 1);
      forall j | 0 <= j < |found| ensures found[j] < end - 1 {
        FoundExactly(w, beg, end - 1, found[j]);
      }
    }
  }

  /** The messages of a set that exist: those of its first range, and then the others. */
  lemma {:induction false} FoundAllExactly(w: World, ranges: seq<Range>, i: nat)
    ensures i in FoundAll(w, ranges) <==>
              w.src(i).Found? && exists j :: 0 <= j < |ranges| && ranges[j].beg <= i <= ranges[j].end
    ensures ranges != [] ==>
              FoundAll(w, ranges) == FoundIn(w, ranges[0].beg, ranges[0].end + 1) + FoundAll(w, ranges[1..])
  {
    if ranges != [] {
      FoundAllExactly(w, ranges[1..], i);
      FoundExactly(w, ranges[0].beg, ranges[0].end + 1, i);
      assert forall j :: 1 <= j < |ranges| ==> ranges[j] == ranges[1..][j - 1];
    }
  }

  // ---------- what an attempt appends ----------

  /** The messages of a range that can be read and appended. */
  function AppendedIn(w: World, beg: nat, end: nat): seq<nat> {
    if end <= beg then []
    else AppendedIn(w, beg, end - 1) + if w.src(end - 1).Found? && !w.appendFails(end - 1) then [end - 1] else []
  }

  /** Whether the last message of a range cannot be read, or not be appended. */
  predicate EndsBadly(w: World, r: Range) {
    r.beg <= r.end && (w.src(r.end).Broken? || (w.src(r.end).Found? && w.appendFails(r.end)))
  }

  /** Those of the ranges up to the first one that ends badly. */
  function AppendedUpTo(w: World, ranges: seq<Range>): seq<nat> {
    if ranges == [] then []
    else AppendedIn(w, ranges[0].beg, ranges[0].end + 1)
         + if EndsBadly(w, ranges[0]) then [] else AppendedUpTo(w, ranges[1..])
  }

  lemma {:induction false} RangeAppends(w: World, beg: nat, end: nat, k: Walk)
    ensures var r := RangeWalk(w, Copying, beg, end, k);
            r.done == k.done + AppendedIn(w, beg, end) && (r.rc <==> beg < end && EndsBadly(w, Range(beg, end - 1)))
  {
    if beg < end {
      RangeAppends(w, beg, end - 1, k);
    }
  }

  lemma {:induction false} ListAppends(w: World, ranges: seq<Range>, k: Walk)
    ensures ListWalk(w, Copying, ranges, k).done == k.done + AppendedUpTo(w, ranges)
    decreases |ranges|
  {
    hide RangeWalk, AppendedIn;
    if ranges != [] {
      var r := RangeWalk(w, Copying, ranges[0].beg, ranges[0].end + 1, k);
      RangeAppends(w, ranges[0].beg, ranges[0].end + 1, k);
      ListAppends(w, ranges[1..], r);
    }
  }

  /** Nothing is appended unless every message can be sized and the quota allows it; then
      the messages of the set in order, without those that fail, and up to the first
      range that ends badly. */
  lemma AppendedExactly(w: World, ranges: seq<Range>, luck: Luck)
    ensures Appended(w, ranges, luck) ==
              if luck.quota && forall j :: 0 <= j < |ranges| ==> Clean(w, Sizing, ranges[j].beg, ranges[j].end + 1)
              then AppendedUpTo(w, ranges) else []
  {
    hide ListWalk, Clean, AppendedUpTo;
    ListOk(w, Sizing, ranges, START);
    ListAppends(w, ranges, START);
    assert START.done + AppendedUpTo(w, ranges) == AppendedUpTo(w, ranges);
  }

  lemma OutcomeIs(w: World, ranges: seq<Range>, old_: seq<Msg>, next: nat)
    ensures var luck := Luck(true, true, true, true);
            var s := WholeWalk(w, Sizing, ranges); var c := WholeWalk(w, Copying, ranges);
            !s.rc && !s.failed ==>
              Outcome(w, ranges, luck, old_, next) ==
              var now := old_ + Copies(w, c.done, next);
              if !c.rc && !c.failed then (now, RespOk, false)
              else (Flushed(Marked(now, |old_|), false), RespNo, false)
  {
    hide WholeWalk, Copies, Flushed, Marked;
  }

  // Sample worlds.
  function SecondOnly(i: nat): Fetch { if i == 1 then Broken else Found("b") }
  function Always(i: nat): Fetch { Found("m") }
  function Never(i: nat): bool { false }
  function AtTwo(i: nat): bool { i == 2 }

  /** An error while a message is read is forgotten when the next one of its range can be
      read: the COPY answers OK without it. */
  lemma SilentlySkipped()
    ensures var w := World(SecondOnly, Never, Never);
            Outcome(w, [Range(1, 2)], Luck(true, true, true, true), [], 7)
            == ([Msg(7, "b", false, false, false)], RespOk, false)
  {
    var w := World(SecondOnly, Never, Never);
    forall phase ensures WholeWalk(w, phase, [Range(1, 2)]) == Walk([2], false, false) {
      assert RangeWalk(w, phase, 1, 1, START) == START;
      assert RangeWalk(w, phase, 1, 2, START) == Walk([], false, true);
      assert RangeWalk(w, phase, 1, 3, START) == Walk([2], false, false);
      assert [Range(1, 2)][1..] == [];
    }
    OutcomeIs(w, [Range(1, 2)], [], 7);
    var none: seq<Msg> := [];
    assert none + Copies(w, [2], 7) == [Msg(7, "b", false, false, false)];
  }

  // ---------- a failed copy ----------

  lemma {:induction false} FlushedTexts(ms: seq<Msg>)
    ensures Texts(Flushed(ms, false)) == Texts(Undeleted(ms))
  {
    if ms != [] {
      FlushedTexts(ms[1..]);
      var m := ms[0].(seen := true);
      TextsAppend(if ms[0].deleted then [] else [m], Flushed(ms[1..], false));
      TextsAppend(if ms[0].deleted then [] else [ms[0]], Undeleted(ms[1..]));
      assert Texts([m]) == Texts([ms[0]]);
    }
  }

  lemma UndeletedCons(m: Msg, ms: seq<Msg>)
    ensures Undeleted([m] + ms) == (if m.deleted then [] else [m]) + Undeleted(ms)
  {
    assert ([m] + ms)[1..] == ms;
  }

  lemma {:induction false} UndeletedAppend(a: seq<Msg>, b: seq<Msg>)
    ensures Undeleted(a + b) == Undeleted(a) + Undeleted(b)
  {
    if a == [] {
      assert a + b == b;
    } else {
      hide Undeleted;
      UndeletedAppend(a[1..], b);
      UndeletedCons(a[0], a[1..] + b);
      UndeletedCons(a[0], a[1..]);
      assert a + b == [a[0]] + (a[1..] + b) && a == [a[0]] + a[1..];
      var head := if a[0].deleted then [] else [a[0]];
      AppendAssoc(head, Undeleted(a[1..]), Undeleted(b));
    }
  }

  lemma {:induction false} UndeletedLength(ms: seq<Msg>)
    ensures |Undeleted(ms)| <= |ms|
    ensures |Undeleted(ms)| == |ms| <==> forall i :: 0 <= i < |ms| ==> !ms[i].deleted
    ensures |Undeleted(ms)| == |ms| ==> Undeleted(ms) == ms
  {
    if ms != [] {
      UndeletedLength(ms[1..]);
      assert ms == [ms[0]] + ms[1..];
    }
  }

  lemma {:induction false} UndeletedMarked(ms: seq<Msg>, n: nat)
    ensures Texts(Undeleted(Marked(ms, n))) == Texts(Undeleted(ms))
  {
    if ms != [] {
      var n' := if n == 0 then 0 else n - 1;
      UndeletedMarked(ms[1..], n');
      assert Marked(ms, n)[1..] == Marked(ms[1..], n');
      var x := Marked(ms, n)[0];
      TextsAppend(if x.deleted then [] else [x], Undeleted(Marked(ms, n)[1..]));
      TextsAppend(if x.deleted then [] else [ms[0]], Undeleted(ms[1..]));
      assert Texts([x]) == Texts([ms[0]]);
    }
  }

  /** A failed COPY leaves the old messages that were not deleted, and all copies that
      were made. */
  lemma FailedCopy(w: World, ranges: seq<Range>, luck: Luck, old_: seq<Msg>, next: nat)
    requires luck == Luck(true, luck.quota, true, true) && Attempt(w, ranges, luck) != RespOk
    ensures var copies := Copies(w, Appended(w, ranges, luck), next);
            Texts(Outcome(w, ranges, luck, old_, next).0) == Texts(Undeleted(old_)) + Texts(copies)
  {
    hide Attempt, Appended, Flushed, Undeleted, Marked, Texts;
    var copies := Copies(w, Appended(w, ranges, luck), next);
    FlushedTexts(Marked(old_ + copies, |old_|));
    UndeletedMarked(old_ + copies, |old_|);
    UndeletedAppend(old_, copies);
    UndeletedLength(copies);
    TextsAppend(Undeleted(old_), copies);
  }

  /** Section 6.4.7 of RFC 3501 asks a failed COPY to restore the destination.  It does
      so if and only if no copy had been made yet and no old message was marked as
      deleted: the rollback sets a flag that flushing does not look at. */
  lemma RestoredExactly(w: World, ranges: seq<Range>, luck: Luck, old_: seq<Msg>, next: nat)
    requires luck == Luck(true, luck.quota, true, true) && Attempt(w, ranges, luck) != RespOk
    requires forall i :: 0 <= i < |old_| ==> old_[i].uid < next
    ensures Texts(Outcome(w, ranges, luck, old_, next).0) == Texts(old_)
       <==> Appended(w, ranges, luck) == [] && forall i :: 0 <= i < |old_| ==> !old_[i].deleted
  {
    hide Attempt, Appended, Outcome, Undeleted;
    FailedCopy(w, ranges, luck, old_, next);
    UndeletedLength(old_);
    var numbers := Appended(w, ranges, luck);
    var after, copies := Texts(Outcome(w, ranges, luck, old_, next).0), Texts(Copies(w, numbers, next));
    if numbers == [] {
      assert Texts(Undeleted(old_)) + copies == Texts(Undeleted(old_));
    } else {
      assert after[|after| - 1] == copies[|copies| - 1] && after[|after| - 1].0 >= next;
      assert old_ != [] ==> Texts(old_)[|old_| - 1].0 < next;
    }
  }

  /** Were the user flags looked at, the rollback would be right up to the old messages
      that were deleted. */
  lemma {:induction false} RollbackAsMeant(old_: seq<Msg>, copies: seq<Msg>)
    requires forall i :: 0 <= i < |old_| ==> !old_[i].marked
    ensures Texts(Flushed(Marked(old_ + copies, |old_|), true)) == Texts(Undeleted(old_))
  {
    if old_ == [] {
      assert old_ + copies == copies;
      AllMarked(copies);
    } else {
      RollbackAsMeant(old_[1..], copies);
      assert Marked(old_ + copies, |old_|)[1..] == Marked(old_[1..] + copies, |old_| - 1) by {
        assert (old_ + copies)[1..] == old_[1..] + copies;
      }
      var m := old_[0].(seen := true);
      TextsAppend(if m.deleted then [] else [m], Flushed(Marked(old_[1..] + copies, |old_| - 1), true));
      TextsAppend(if m.deleted then [] else [old_[0]], Undeleted(old_[1..]));
      assert Texts([m]) == Texts([old_[0]]);
    }
  }

  lemma {:induction false} AllMarked(ms: seq<Msg>)
    ensures Flushed(Marked(ms, 0), true) == []
  {
    if ms != [] {
      AllMarked(ms[1..]);
      assert Marked(ms, 0)[1..] == Marked(ms[1..], 0);
    }
  }

  lemma FlushedOne(m: Msg)
    requires !m.deleted
    ensures Flushed([m], false) == [m.(seen := true)]
  {
    var none: seq<Msg> := [];
    assert [m][1..] == none && Flushed(none, false) == none;
  }

  lemma SampleWalks()
    ensures var w := World(Always, Never, AtTwo);
            && WholeWalk(w, Sizing, [Range(1, 2)]) == Walk([1, 2], false, false)
            && WholeWalk(w, Copying, [Range(1, 2)]) == Walk([1], true, true)
  {
    var w := World(Always, Never, AtTwo);
    var rs := [Range(1, 2)];
    assert rs[1..] == [];
    assert RangeWalk(w, Sizing, 1, 2, START) == Walk([1], false, false);
    assert RangeWalk(w, Copying, 1, 2, START) == Walk([1], false, false);
  }

  /** The second of two appends fails: the client is told so, and the first copy stays. */
  lemma CopyLeftBehind()
    ensures var w := World(Always, Never, AtTwo);
            Outcome(w, [Range(1, 2)], Luck(true, true, true, true), [], 7)
            == ([Msg(7, "m", false, true, true)], RespNo, false)
  {
    var w := World(Always, Never, AtTwo);
    var rs := [Range(1, 2)];
    SampleWalks();
    hide WholeWalk;
    OutcomeIs(w, rs, [], 7);
    var copy := Msg(7, "m", false, false, false);
    var none: seq<Msg> := [];
    assert w.src(1) == Found("m");
    assert none + Copies(w, [1], 7) == [copy];
    assert Marked([copy], 0) == [copy.(marked := true)];
    FlushedOne(copy.(marked := true));
  }
}
