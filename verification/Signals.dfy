/** Deferral of signals around critical sections, one statement at a time. */
module Signals {
  import opened Common

  /** Where the program is: before each statement of imap4d_enter_critical and
      imap4d_leave_critical, inside a critical section, or outside. */
  datatype Pc =
    | Outside
    | EnterSet      // __critical_section = 1
    | EnterTest     // if (__got_signal)
    | EnterMark     //   __critical_section++
    | Inside
    | LeaveTest     // if (__got_signal && __critical_section != 2) longjmp
    | LeaveClear    // __critical_section = 0

  /** `bye` says that imap4d_bye runs; `landed` is where the signal found the program,
      and `jumps` where it was when control was taken away, in order. */
  datatype State = State(
    pc: Pc, critical: nat, got: nat, armed: bool, bye: bool,
    landed: Option<Pc>, jumps: seq<Pc>)

  /** Go on by one statement; leave the main loop for good; or a signal arrives. */
  datatype Act = Go | Quit | Signal(signo: nat)

  const START: State := State(Outside, 0, 0, true, false, None, [])

  predicate Enabled(s: State, a: Act) {
    match a
    case Go => true
    case Quit => s.pc == Outside
    case Signal(signo) => signo > 0
  }

  /** longjmp to the main loop, which calls imap4d_bye */
  function Jump(s: State): State {
    s.(pc := Outside, bye := true, jumps := s.jumps + [s.pc])
  }

  /** imap4d_child_signal; it ignores all further signals */
  function Handled(s: State, signo: nat): State {
    if !s.armed then s
    else
      var t := s.(armed := false, landed := Some(s.pc));
      if t.critical != 0 then t.(got := signo) else Jump(t)
  }

  function Next(s: State, a: Act): State
    requires Enabled(s, a)
  {
    match a
    case Signal(signo) => Handled(s, signo)
    case Quit => s.(bye := true)
    case Go =>
      match s.pc
      case Outside => s.(pc := EnterSet)
      case EnterSet => s.(critical := 1, pc := EnterTest)
      case EnterTest => s.(pc := if s.got != 0 then EnterMark else Inside)
      case EnterMark => s.(critical := s.critical + 1, pc := Inside)
      case Inside => s.(pc := LeaveTest)
      case LeaveTest => if s.got != 0 && s.critical != 2 then Jump(s) else s.(pc := LeaveClear)
      case LeaveClear => s.(critical := 0, pc := Outside)
  }

  function Run(s: State, acts: seq<Act>): Option<State> {
    if acts == [] then Some(s)
    else
      var n := |acts| - 1;
      match Run(s, acts[..n])
      case None => None
      case Some(t) => if Enabled(t, acts[n]) then Some(Next(t, acts[n])) else None
  }

  // ---------- what every run keeps ----------

  /** Where a signal is held back: from the end of enter to the test of leave. */
  predicate Held(pc: Pc) {
    pc == Inside || pc == LeaveTest
  }

  /** Where a signal is noted too early, or too late, to be acted on. */
  predicate Lost(pc: Pc) {
    pc == EnterTest || pc == LeaveClear
  }

  /** The counter while no signal was noted. */
  predicate Quiet(s: State) {
    && s.got == 0 && s.pc != EnterMark
    && s.critical == (if s.pc == Outside || s.pc == EnterSet then 0 else 1)
  }

  /** A signal that was noted where it is lost: every section is marked from then on. */
  predicate Muted(s: State) {
    && s.got != 0
    && (s.pc == Outside || s.pc == EnterSet ==> s.critical == 0)
    && (s.pc == EnterTest || s.pc == EnterMark ==> s.critical == 1)
    && (Held(s.pc) ==> s.critical == 2)
    && (s.pc == LeaveClear ==> s.critical != 0)
  }

  /** After a jump: the handler is gone, and no section of imap4d_bye can jump. */
  predicate Leaving(s: State) {
    && !s.armed && s.bye
    && (s.got != 0 && (s.pc == EnterTest || s.pc == EnterMark) ==> s.critical == 1)
    && (s.got != 0 && Held(s.pc) ==> s.critical == 2)
    && (s.got == 0 ==> s.pc != EnterMark)
  }

  ghost predicate Inv(s: State) {
    match s.landed
    case None => s.armed && s.jumps == [] && Quiet(s)
    case Some(at) =>
      && !s.armed
      && at != EnterMark
      && if Lost(at) then s.jumps == [] && Muted(s)
         else if s.jumps == [] then Held(at) && Held(s.pc) && s.got != 0 && s.critical == 1
         else |s.jumps| == 1 && s.jumps[0] == (if Held(at) then LeaveTest else at) && Leaving(s)
  }

  lemma NextKeeps(s: State, a: Act)
    requires Inv(s) && Enabled(s, a)
    ensures Inv(Next(s, a))
  {
  }

  lemma {:induction false} RunKeeps(acts: seq<Act>)
    requires Run(START, acts).Some?
    ensures Inv(Run(START, acts).value)
  {
    hide Inv, Next;
    if acts == [] {
      StartKeeps();
    } else {
      var n := |acts| - 1;
      RunKeeps(acts[..n]);
      NextKeeps(Run(START, acts[..n]).value, acts[n]);
    }
  }

  lemma StartKeeps()
    ensures Inv(START)
  {
  }

  /** In no run does a jump leave a critical section before the test of leave, and there
      is at most one jump, the critical section of imap4d_bye included. */
  lemma JumpsSafe(acts: seq<Act>)
    requires Run(START, acts).Some?
    ensures var s := Run(START, acts).value;
            && |s.jumps| <= 1
            && forall i :: 0 <= i < |s.jumps| ==>
              s.jumps[i] == Outside || s.jumps[i] == EnterSet || s.jumps[i] == LeaveTest
  {
    hide Run, Next;
    RunKeeps(acts);
  }

  /** What becomes of a signal depends on where it lands, and on nothing else.  Outside
      it acts at once.  Between the end of enter and the test of leave it is acted on
      at that test, which the program cannot pass without the jump.  In the two gaps it
      is never acted on, in however long a run. */
  lemma FateOfSignal(acts: seq<Act>)
    requires Run(START, acts).Some? && Run(START, acts).value.landed.Some?
    ensures var s := Run(START, acts).value; var at := s.landed.value;
            && (at == Outside || at == EnterSet ==> s.jumps == [at])
            && (Held(at) ==>
                  s.jumps == [LeaveTest] || (s.jumps == [] && Held(s.pc) && Next(Ahead(s), Go).jumps == [LeaveTest]))
            && (Lost(at) ==> s.jumps == [])
            && at != EnterMark
  {
    hide Run;
    RunKeeps(acts);
  }

  /** The state at the coming test of leave. */
  function Ahead(s: State): State {
    if s.pc == Inside then s.(pc := LeaveTest) else s
  }

  /** Both gaps can be hit. */
  lemma GapsExist()
    ensures var acts := [Go, Go, Signal(15)];
            Run(START, acts).Some? && Run(START, acts).value.landed == Some(EnterTest)
    ensures var acts := [Go, Go, Go, Go, Go, Signal(15)];
            Run(START, acts).Some? && Run(START, acts).value.landed == Some(LeaveClear)
  {
    var s0: seq<Act> := [];
    var s1, s2, s3, s4, s5 := [Go], [Go, Go], [Go, Go, Go], [Go, Go, Go, Go], [Go, Go, Go, Go, Go];
    assert s1[..0] == s0 && s2[..1] == s1 && s3[..2] == s2 && s4[..3] == s3 && s5[..4] == s4;
    assert [Go, Go, Signal(15)][..2] == s2 && [Go, Go, Go, Go, Go, Signal(15)][..5] == s5;
    assert Run(START, s1).value.pc == EnterSet && Run(START, s2).value.pc == EnterTest;
    assert Run(START, s3).value.pc == Inside && Run(START, s4).value.pc == LeaveTest
      && Run(START, s5).value.pc == LeaveClear;
  }

  // ---------- the variables of the source ----------

  /** The two static variables, and the statement the program is at. */
  class Child {
    var critical_section: nat
    var got_signal: nat
    var armed: bool
    var bye: bool
    var pc: Pc
    ghost var landed: Option<Pc>
    ghost var jumps: seq<Pc>

    ghost function Now(): State
      reads this
    {
      State(pc, critical_section, got_signal, armed, bye, landed, jumps)
    }

    constructor ()
      ensures Now() == START
    {
      critical_section, got_signal, armed, bye, pc := 0, 0, true, false, Outside;
      landed, jumps := None, [];
    }

    method LongJump()
      modifies this
      ensures Now() == Jump(old(Now()))
    {
      jumps := jumps + [pc];
      bye := true;
      pc := Outside;
    }

    /** imap4d_child_signal, which interrupts the program at any statement */
    method ChildSignal(signo: nat)
      modifies this
      ensures Now() == Handled(old(Now()), signo)
    {
      if !armed {
        return;
      }
      landed := Some(pc);
      armed := false;
      if critical_section != 0 {
        got_signal := signo;
      } else {
        LongJump();
      }
    }

    /** One statement of the program. */
    method Statement()
      modifies this
      ensures Now() == Next(old(Now()), Go)
    {
      match pc {
        case Outside => pc := EnterSet;
        case EnterSet =>
          critical_section := 1;
          pc := EnterTest;
        case EnterTest => pc := if got_signal != 0 then EnterMark else Inside;
        case EnterMark =>
          critical_section := critical_section + 1;
          pc := Inside;
        case Inside => pc := LeaveTest;
        case LeaveTest =>
          if got_signal != 0 && critical_section != 2 {
            LongJump();
          } else {
            pc := LeaveClear;
          }
        case LeaveClear =>
          critical_section := 0;
          pc := Outside;
      }
    }
  }
}
