/**
  run_with_callbacks as a function on values: one call of `Iterate` is one turn
  of the tracer's loop, and a run is a list of turns. Threads act on their own
  between turns (`Env`) and also inside a turn: `Gaps` says what they do before
  each of its ptrace requests. Quantifying over lists of turns quantifies over
  every interleaving of tracer and threads.
 */
module TracerLoop {
  import opened Base
  import opened Kernel

  datatype ThreadStatus = USERSPACE | KERNELSPACE_ALLOW | KERNELSPACE_DENY

  /** The callback's answer. `Abort` is an exception other than ESRCH leaving it. */
  datatype Verdict = Allow | Deny | Abort

  /** Answers may depend on everything observed so far, so this covers any user. */
  type Decider = (seq<Entry>, Pid, Call) -> Verdict

  datatype Outcome =
    | Tracing
    | Finished(code: nat)
    | Aborted
    | OutOfRange      // thread_status.at(child) found no entry
    | AssertFailed    // the stop was not a syscall-entry stop

  datatype Sys = Sys(
    k: KState,
    status: map<Pid, ThreadStatus>,
    target: Pid,                     // Parser::target_
    outcome: Outcome)

  datatype Gaps = Gaps(info: seq<Action>, getregs: seq<Action>, setregs: seq<Action>, cont: seq<Action>)

  function Late(g: Gaps): seq<Action> { g.getregs + g.setregs + g.cont }

  function Everything(g: Gaps): seq<Action> { g.info + Late(g) }

  datatype Turn = Env(action: Action) | Poll(pid: Pid, gaps: Gaps)

  function ExitCode(e: Exit): nat {
    match e
    case Exited(code) => code
    case Signaled(sig) => 128 + sig
  }

  /** The final PTRACE_SYSCALL of a turn, after `gap`. */
  function Continue(s: Sys, p: Pid, gap: seq<Action>): Sys {
    var k := LetAll(s.k, gap);
    s.(k := if AtStop(k, p) then Resume(k, p) else Esrch(k, p))
  }

  /** A request on p failed with ESRCH: the turn ends, `rest` still happens. */
  function GiveUp(s: Sys, k: KState, p: Pid, rest: seq<Action>): Sys {
    s.(k := LetAll(Esrch(k, p), rest))
  }

  /** PTRACE_GETREGS, change one register, PTRACE_SETREGS, then continue with status `next`. */
  function Rewrite(s: Sys, p: Pid, g: Gaps, entry: bool, next: ThreadStatus): Sys {
    var k1 := LetAll(s.k, g.getregs);
    if !AtStop(k1, p) then GiveUp(s, k1, p, g.setregs + g.cont)
    else
      var t := k1.threads[p];
      var k2 := LetAll(k1, g.setregs);
      if !AtStop(k2, p) then GiveUp(s, k2, p, g.cont)
      else
        var k3 := if entry then SetRegs(k2, p, NO_CALL, t.rax) else SetRegs(k2, p, t.origRax, MINUS_EPERM);
        Continue(s.(k := k3, status := s.status[p := next]), p, g.cont)
  }

  /** The state after the callback allowed, or denied, p's call. */
  function Allowing(s: Sys, k: KState, p: Pid, call: Call): Sys {
    s.(k := k.(log := k.log + [Approved(p, call)]), target := p, status := s.status[p := KERNELSPACE_ALLOW])
  }

  function Denying(s: Sys, k: KState, p: Pid, call: Call): Sys {
    s.(k := k.(log := k.log + [Refused(p, call)]), target := p)
  }

  /** A syscall-entry stop of p: ask the callback, with the parser aimed at p. */
  function OnEntry(s: Sys, p: Pid, g: Gaps, decide: Decider): Sys {
    var k := LetAll(s.k, g.info);
    if !AtStop(k, p) then GiveUp(s, k, p, Late(g))
    else if !k.threads[p].phase.Entering? then s.(k := k, outcome := AssertFailed)
    else
      var call := k.threads[p].phase.call.(nr := k.threads[p].origRax);
      match decide(k.log, p, call)
      case Abort => s.(k := k, target := p, outcome := Aborted)
      case Allow => Continue(Allowing(s, k, p, call), p, Late(g))
      case Deny => Rewrite(Denying(s, k, p, call), p, g, true, KERNELSPACE_DENY)
  }

  function OnSyscallStop(s: Sys, p: Pid, g: Gaps, decide: Decider): Sys {
    if p !in s.status then s.(outcome := OutOfRange)
    else
      match s.status[p]
      case USERSPACE => OnEntry(s, p, g, decide)
      case KERNELSPACE_DENY => Rewrite(s.(k := LetAll(s.k, g.info)), p, g, false, USERSPACE)
      case KERNELSPACE_ALLOW => Continue(s.(status := s.status[p := USERSPACE]), p, Everything(g))
  }

  function OnStop(s: Sys, p: Pid, sig: nat, g: Gaps, decide: Decider): Sys {
    if sig == SIGSTOP then
      Continue(if p in s.status then s else s.(status := s.status[p := USERSPACE]), p, Everything(g))
    else if sig == SYSCALL_STOP then OnSyscallStop(s, p, g, decide)
    else Continue(s, p, Everything(g))
  }

  function OnExit(s: Sys, p: Pid, e: Exit, g: Gaps): Sys {
    var s' := s.(k := LetAll(s.k, Everything(g)), status := s.status - {p});
    if |s'.status| == 0 then s'.(outcome := Finished(ExitCode(e))) else s'
  }

  /** One turn of the loop in which waitpid returns p, if it has anything to report about p. */
  function Iterate(s: Sys, p: Pid, g: Gaps, decide: Decider): Sys {
    match Pending(s.k, p)
    case None => s.(k := LetAll(s.k, Everything(g)))
    case Some(Gone(e)) => OnExit(s.(k := Deliver(s.k, p)), p, e, g)
    case Some(Stop(sig)) => OnStop(s.(k := Deliver(s.k, p)), p, sig, g, decide)
  }

  function Take(s: Sys, t: Turn, decide: Decider): Sys {
    if !s.outcome.Tracing? then s
    else
      match t
      case Env(a) => s.(k := Let(s.k, a))
      case Poll(p, g) => Iterate(s, p, g, decide)
  }

  function Play(s: Sys, turns: seq<Turn>, decide: Decider): Sys
    decreases |turns|
  {
    if turns == [] then s else Play(Take(s, turns[0], decide), turns[1..], decide)
  }

  /** After the start-up handshake: one registered thread, running in user mode. */
  function Start(root: Pid): Sys {
    Sys(KState(map[root := Thread(User, Running, 0, 0)], {root}, [], [], multiset{}, {}),
        map[root := USERSPACE], 0, Tracing)
  }
}
