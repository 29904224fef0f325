/** The tracer as the program it is: a loop over ptrace requests that updates a map in place. */
module Tracer {
  import opened Base
  import opened Kernel
  import opened TracerLoop
  import opened TracerTheorems
  import opened TracerLifecycle

  datatype Regs = Regs(origRax: U64, rax: U64)
  datatype SyscallInfo = SyscallInfo(entry: bool, call: Call)

  /** The ptrace interface of one tracing session. A failed request (None, false) is ESRCH. */
  class Ptrace {
    var k: KState

    constructor (k: KState)
      ensures this.k == k
    {
      this.k := k;
    }

    /** Threads act on their own. */
    method Elapse(actions: seq<Action>)
      modifies this
      ensures k == LetAll(old(k), actions)
    {
      var i := 0;
      while i < |actions|
        invariant 0 <= i <= |actions|
        invariant LetAll(k, actions[i..]) == LetAll(old(k), actions)
      {
        k := Let(k, actions[i]);
        assert actions[i..][1..] == actions[i + 1..];
        i := i + 1;
      }
    }

    method WaitPid(p: Pid) returns (w: Option<Wait>)
      modifies this
      ensures w == Pending(old(k), p)
      ensures k == if w.Some? then Deliver(old(k), p) else old(k)
    {
      w := Pending(k, p);
      if w.Some? {
        k := Deliver(k, p);
      }
    }

    method GetSyscallInfo(p: Pid) returns (info: Option<SyscallInfo>)
      modifies this
      ensures info.Some? <==> AtStop(old(k), p)
      ensures info.Some? ==> k == old(k) && info.value.entry == k.threads[p].phase.Entering?
      ensures info.Some? && info.value.entry ==> info.value.call == k.threads[p].phase.call.(nr := k.threads[p].origRax)
      ensures info.None? ==> k == Esrch(old(k), p)
    {
      if AtStop(k, p) {
        var t := k.threads[p];
        info := Some(if t.phase.Entering? then SyscallInfo(true, t.phase.call.(nr := t.origRax))
                     else SyscallInfo(false, Call(0, [0, 0, 0, 0, 0, 0], false)));
      } else {
        k := Esrch(k, p);
        info := None;
      }
    }

    method GetRegs(p: Pid) returns (regs: Option<Regs>)
      modifies this
      ensures regs.Some? <==> AtStop(old(k), p)
      ensures regs.Some? ==> k == old(k) && regs.value == Regs(k.threads[p].origRax, k.threads[p].rax)
      ensures regs.None? ==> k == Esrch(old(k), p)
    {
      if AtStop(k, p) {
        regs := Some(Regs(k.threads[p].origRax, k.threads[p].rax));
      } else {
        k := Esrch(k, p);
        regs := None;
      }
    }

    method SetRegs(p: Pid, regs: Regs) returns (ok: bool)
      modifies this
      ensures ok <==> AtStop(old(k), p)
      ensures k == if ok then Kernel.SetRegs(old(k), p, regs.origRax, regs.rax) else Esrch(old(k), p)
    {
      ok := AtStop(k, p);
      k := if ok then Kernel.SetRegs(k, p, regs.origRax, regs.rax) else Esrch(k, p);
    }

    method Syscall(p: Pid) returns (ok: bool)
      modifies this
      ensures ok <==> AtStop(old(k), p)
      ensures k == if ok then Resume(old(k), p) else Esrch(old(k), p)
    {
      ok := AtStop(k, p);
      k := if ok then Resume(k, p) else Esrch(k, p);
    }

    /** The decision becomes part of the observable history. */
    method Record(e: Entry)
      modifies this
      ensures k == old(k).(log := old(k).log + [e])
    {
      k := k.(log := k.log + [e]);
    }
  }

  class Tracer {
    const ptrace: Ptrace
    const decide: Decider
    var threadStatus: map<Pid, ThreadStatus>
    var target: Pid

    constructor (ptrace: Ptrace, child: Pid, decide: Decider)
      ensures this.ptrace == ptrace && this.decide == decide
      ensures threadStatus == map[child := USERSPACE] && target == 0
    {
      this.ptrace := ptrace;
      this.decide := decide;
      threadStatus := map[child := USERSPACE];
      target := 0;
    }

    function View(outcome: Outcome): Sys
      reads this, ptrace
    {
      Sys(ptrace.k, threadStatus, target, outcome)
    }

    method SetPid(p: Pid)
      modifies this`target
      ensures target == p
    {
      target := p;
    }

    /** The syscall callback. It knows the thread only through the parser's target. */
    method SyscallCallback(call: Call) returns (v: Verdict)
      modifies ptrace
      ensures v == decide(old(ptrace.k.log), target, call)
      ensures ptrace.k == old(ptrace.k).(log := old(ptrace.k.log) +
                match v case Allow => [Approved(target, call)] case Deny => [Refused(target, call)] case Abort => [])
    {
      v := decide(ptrace.k.log, target, call);
      match v
      case Allow => ptrace.Record(Approved(target, call));
      case Deny => ptrace.Record(Refused(target, call));
      case Abort =>
        assert ptrace.k.log + [] == ptrace.k.log;
    }

    /** One register of a stopped thread is replaced, then the thread is resumed; ESRCH ends the turn early. */
    method ReplaceRegister(child: Pid, g: Gaps, entry: bool, next: ThreadStatus)
      modifies this`threadStatus, ptrace
      ensures View(Tracing) == Rewrite(old(View(Tracing)), child, g, entry, next)
    {
      ptrace.Elapse(g.getregs);
      var regs := ptrace.GetRegs(child);
      if regs.None? {
        ptrace.Elapse(g.setregs + g.cont);
        return;
      }
      ptrace.Elapse(g.setregs);
      var changed := if entry then regs.value.(origRax := NO_CALL) else regs.value.(rax := MINUS_EPERM);
      var ok := ptrace.SetRegs(child, changed);
      if !ok {
        ptrace.Elapse(g.cont);
        return;
      }
      threadStatus := threadStatus[child := next];
      ptrace.Elapse(g.cont);
      ok := ptrace.Syscall(child);
    }

    /** A syscall stop: entry or exit, according to the map. */
    method SyscallStop(child: Pid, g: Gaps) returns (outcome: Outcome)
      modifies this, ptrace
      ensures View(outcome) == OnSyscallStop(old(View(Tracing)), child, g, decide)
    {
      outcome := Tracing;
      if child !in threadStatus {
        return OutOfRange;
      }
      match threadStatus[child]
      case USERSPACE =>
        ptrace.Elapse(g.info);
        var info := ptrace.GetSyscallInfo(child);
        if info.None? {
          ptrace.Elapse(Late(g));
          return;
        }
        if !info.value.entry {
          return AssertFailed;
        }
        SetPid(child);
        var verdict := SyscallCallback(info.value.call);
        match verdict {
          case Abort =>
            assert ptrace.k.log + [] == ptrace.k.log;
            outcome := Aborted;
          case Allow =>
            threadStatus := threadStatus[child := KERNELSPACE_ALLOW];
            ptrace.Elapse(Late(g));
            var _ := ptrace.Syscall(child);
          case Deny =>
            ReplaceRegister(child, g, true, KERNELSPACE_DENY);
        }
      case KERNELSPACE_DENY =>
        ptrace.Elapse(g.info);
        ReplaceRegister(child, g, false, USERSPACE);
      case KERNELSPACE_ALLOW =>
        threadStatus := threadStatus[child := USERSPACE];
        ptrace.Elapse(Everything(g));
        var _ := ptrace.Syscall(child);
    }

    /** One turn of the loop, when waitpid returns `child`. */
    method LoopBody(child: Pid, g: Gaps) returns (outcome: Outcome)
      modifies this, ptrace
      ensures View(outcome) == Iterate(old(View(Tracing)), child, g, decide)
    {
      outcome := Tracing;
      var wait := ptrace.WaitPid(child);
      match wait
      case None =>
        ptrace.Elapse(Everything(g));
      case Some(Gone(exit)) =>
        threadStatus := threadStatus - {child};
        if |threadStatus| == 0 {
          outcome := Finished(ExitCode(exit));
        }
        ptrace.Elapse(Everything(g));
      case Some(Stop(sig)) =>
        if sig == SYSCALL_STOP {
          outcome := SyscallStop(child, g);
        } else {
          if sig == SIGSTOP && child !in threadStatus {
            threadStatus := threadStatus[child := USERSPACE];
          }
          ptrace.Elapse(Everything(g));
          var _ := ptrace.Syscall(child);
        }
    }

    /** The tracing loop under a schedule: what the threads do and whom waitpid reports, turn by turn. */
    method Run(turns: seq<Turn>) returns (outcome: Outcome)
      modifies this, ptrace
      ensures View(outcome) == Play(old(View(Tracing)), turns, decide)
    {
      outcome := Tracing;
      var i := 0;
      while i < |turns|
        invariant 0 <= i <= |turns|
        invariant Play(View(outcome), turns[i..], decide) == Play(old(View(Tracing)), turns, decide)
      {
        assert turns[i..][1..] == turns[i + 1..];
        if outcome.Tracing? {
          match turns[i] {
            case Env(a) => ptrace.Elapse([a]);
            case Poll(child, g) => outcome := LoopBody(child, g);
          }
        }
        i := i + 1;
      }
    }
  }

  /** A whole session from the first PTRACE_SYSCALL on: it never fails a lookup or an assertion, it returns
      the status of the last exit that waitpid reported, and the calls that ran were each approved by the
      callback just before, for that thread. */
  method RunWithCallbacks(child: Pid, turns: seq<Turn>, decide: Decider)
    returns (outcome: Outcome, log: seq<Entry>, reports: seq<Report>)
    ensures outcome == Play(Start(child), turns, decide).outcome
    ensures log == Play(Start(child), turns, decide).k.log && reports == Play(Start(child), turns, decide).k.reports
    ensures outcome.Tracing? || outcome.Finished? || outcome.Aborted?
    ensures outcome.Finished? ==>
              && reports != []
              && match reports[|reports| - 1].wait
                 case Stop(_) => false
                 case Gone(Exited(code)) => outcome == Finished(code)
                 case Gone(Signaled(sig)) => outcome == Finished(128 + sig)
    ensures forall i :: 0 <= i < |log| && log[i].Executed? ==>
              exists j :: Adjacent(log, j, i) && log[j] == Approved(log[i].pid, log[i].call)
                          && decide(log[..j], log[i].pid, log[i].call) == Allow
  {
    var ptrace := new Ptrace(Start(child).k);
    var tracer := new Tracer(ptrace, child, decide);
    outcome := tracer.Run(turns);
    log, reports := ptrace.k.log, ptrace.k.reports;
    SimulationInvariant(child, turns, decide);
    MapLifecycle(child, turns, decide);
    forall i | 0 <= i < |log| && log[i].Executed?
      ensures exists j :: Adjacent(log, j, i) && log[j] == Approved(log[i].pid, log[i].call)
                          && decide(log[..j], log[i].pid, log[i].call) == Allow
    {
      ExecutedOnlyIfApproved(child, turns, decide, i);
    }
  }
}
