/**
  The part of the Linux kernel that the tracer talks to, as a state machine.

  A traced thread alternates between user mode and system calls. It stops on
  entry to a call, on exit from it, on a signal, on a clone/fork event, and
  (a new thread) on its initial SIGSTOP. A stop is first pending, then reported
  by waitpid, then ended by PTRACE_SYSCALL. A thread may die at any moment; from
  then on every ptrace request on it answers ESRCH, and its exit is the only
  event waitpid still reports.

  Two histories are kept. `log` is what user space and the tracer's callback can
  observe: decisions, executed calls and returned values, in order. `reports`
  is what waitpid delivered.
 */
module Kernel {
  import opened Base

  const SIGTRAP: nat := 5
  const SIGSTOP: nat := 19
  const SYSCALL_STOP: nat := 133      // SIGTRAP | 0x80, from PTRACE_O_TRACESYSGOOD
  const NO_CALL: U64 := TWO_64 - 1    // -1 in orig_rax: the kernel runs no call
  const MINUS_EPERM: U64 := TWO_64 - 1
  const MINUS_ENOSYS: U64 := TWO_64 - 38

  datatype Call = Call(nr: U64, args: Args, int80: bool)

  datatype Phase =
    | User
    | Entering(call: Call)
    | Executing(call: Call, done: bool)
    | Leaving(call: Call)

  datatype Exit = Exited(code: nat) | Signaled(sig: nat)

  datatype Run =
    | Running
    | Stopped(sig: nat, reported: bool)
    | Dead(exit: Exit)

  datatype Thread = Thread(phase: Phase, run: Run, origRax: U64, rax: U64)

  datatype Entry =
    | Approved(pid: Pid, call: Call)
    | Refused(pid: Pid, call: Call)
    | Executed(pid: Pid, call: Call, ret: U64)
    | Returned(pid: Pid, call: Call, rax: U64)

  datatype Wait = Stop(sig: nat) | Gone(exit: Exit)
  datatype Report = Report(pid: Pid, wait: Wait)

  datatype KState = KState(
    threads: map<Pid, Thread>,   // alive, or dead and not yet reaped
    born: set<Pid>,              // every pid ever used: no reuse
    log: seq<Entry>,
    reports: seq<Report>,
    resumed: multiset<Pid>,      // successful PTRACE_SYSCALL requests, by thread
    lost: set<Pid>)              // threads on which a ptrace request failed with ESRCH

  // ---- what threads do by themselves ------------------------------------

  datatype Action =
    | Enter(pid: Pid, call: Call)
    | Execute(pid: Pid, ret: U64)
    | Spawn(pid: Pid, child: Pid)
    | Finish(pid: Pid)
    | Signal(pid: Pid, sig: nat)
    | Die(pid: Pid, exit: Exit)

  /** The kernel runs the call numbered by orig_rax, unless that is -1. */
  predicate CanExecute(t: Thread) {
    t.run.Running? && t.phase.Executing? && !t.phase.done && t.origRax != NO_CALL
  }

  predicate CanSpawn(t: Thread) {
    t.run.Running? && t.phase.Executing? && t.phase.done
  }

  predicate CanFinish(t: Thread) {
    t.run.Running? && t.phase.Executing? && (t.phase.done || t.origRax == NO_CALL)
  }

  /** The effect of an action on the thread that performs it; disabled actions do nothing. */
  function Move(t: Thread, a: Action): Thread {
    match a
    case Enter(_, call) =>
      if t.run.Running? && t.phase.User?
      then Thread(Entering(call), Stopped(SYSCALL_STOP, false), call.nr, MINUS_ENOSYS) else t
    case Execute(_, ret) =>
      if CanExecute(t) then t.(phase := Executing(t.phase.call, true), rax := ret) else t
    case Spawn(_, _) =>
      if CanSpawn(t) then t.(run := Stopped(SIGTRAP, false)) else t
    case Finish(_) =>
      if CanFinish(t) then t.(phase := Leaving(t.phase.call), run := Stopped(SYSCALL_STOP, false)) else t
    case Signal(_, sig) =>
      if t.run.Running? && t.phase.User? && 1 <= sig <= 64 then t.(run := Stopped(sig, false)) else t
    case Die(_, exit) =>
      if t.run.Dead? then t else t.(run := Dead(exit))
  }

  function Trail(t: Thread, a: Action): seq<Entry> {
    if a.Execute? && CanExecute(t) then [Executed(a.pid, t.phase.call.(nr := t.origRax), a.ret)] else []
  }

  /** A thread created by clone, fork or vfork starts in its initial SIGSTOP. */
  const NEWBORN: Thread := Thread(User, Stopped(SIGSTOP, false), 0, 0)

  function Let(k: KState, a: Action): KState {
    if a.pid !in k.threads then k
    else
      var t := k.threads[a.pid];
      var k' := k.(threads := k.threads[a.pid := Move(t, a)], log := k.log + Trail(t, a));
      if a.Spawn? && CanSpawn(t) && a.child !in k.born
      then k'.(threads := k'.threads[a.child := NEWBORN], born := k.born + {a.child})
      else k'
  }

  function LetAll(k: KState, actions: seq<Action>): KState
    decreases |actions|
  {
    if actions == [] then k else LetAll(Let(k, actions[0]), actions[1..])
  }

  // ---- what the tracer asks for -----------------------------------------

  function PendingOf(t: Thread): Option<Wait> {
    match t.run
    case Running => None
    case Stopped(sig, reported) => if reported then None else Some(Stop(sig))
    case Dead(exit) => Some(Gone(exit))
  }

  /** What waitpid can report about p now. */
  function Pending(k: KState, p: Pid): Option<Wait> {
    if p in k.threads then PendingOf(k.threads[p]) else None
  }

  /** waitpid reports p: a stop is marked as reported, an exit is reaped. */
  function Deliver(k: KState, p: Pid): KState
    requires Pending(k, p).Some?
  {
    var w := Pending(k, p).value;
    var k' := k.(reports := k.reports + [Report(p, w)]);
    match w
    case Stop(sig) => k'.(threads := k.threads[p := k.threads[p].(run := Stopped(sig, true))])
    case Gone(_) => k'.(threads := k.threads - {p})
  }

  predicate Held(t: Thread) {
    t.run.Stopped? && t.run.reported
  }

  /** ptrace requests succeed only on a thread held in a reported stop. */
  predicate AtStop(k: KState, p: Pid) {
    p in k.threads && Held(k.threads[p])
  }

  /** A ptrace request on p fails. */
  function Esrch(k: KState, p: Pid): KState {
    k.(lost := k.lost + {p})
  }

  function SetRegs(k: KState, p: Pid, origRax: U64, rax: U64): KState
    requires AtStop(k, p)
  {
    k.(threads := k.threads[p := k.threads[p].(origRax := origRax, rax := rax)])
  }

  /** PTRACE_SYSCALL with signal 0, as seen by the thread. */
  function Released(t: Thread): Thread {
    match t.phase
    case Entering(call) => t.(phase := Executing(call, false), run := Running)
    case Leaving(_) => t.(phase := User, run := Running)
    case _ => t.(run := Running)
  }

  function ReleaseTrail(t: Thread, p: Pid): seq<Entry> {
    if t.phase.Leaving? then [Returned(p, t.phase.call, t.rax)] else []
  }

  function Resume(k: KState, p: Pid): KState
    requires AtStop(k, p)
  {
    var t := k.threads[p];
    k.(threads := k.threads[p := Released(t)], log := k.log + ReleaseTrail(t, p), resumed := k.resumed + multiset{p})
  }
}
