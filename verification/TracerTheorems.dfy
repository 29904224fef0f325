/** What the tracer guarantees about every run, stated over its histories. */
module TracerTheorems {
  import opened Base
  import opened Kernel
  import opened TracerLoop
  import opened TracerSafety

  /** Entries j and i of a log are consecutive entries of one thread. */
  ghost predicate Adjacent(log: seq<Entry>, j: int, i: int) {
    0 <= j < i < |log| && log[j].pid == log[i].pid && forall m :: j < m < i ==> log[m].pid != log[i].pid
  }

  /** The index of p's latest entry, when there is one. */
  lemma {:induction false} LastIndex(log: seq<Entry>, p: Pid) returns (j: int)
    requires Last(log, p).Some?
    ensures 0 <= j < |log| && log[j] == Last(log, p).value && log[j].pid == p
    ensures forall m :: j < m < |log| ==> log[m].pid != p
  {
    if log[|log| - 1].pid == p {
      j := |log| - 1;
    } else {
      j := LastIndex(log[..|log| - 1], p);
      assert forall m :: 0 <= m < |log| - 1 ==> log[m] == log[..|log| - 1][m];
    }
  }

  /** Every entry of a mediated log obeys the discipline with respect to its own thread's previous entry. */
  lemma {:induction false} MediatedAt(log: seq<Entry>, decide: Decider, i: nat)
    requires Mediated(log, decide) && i < |log|
    ensures Follows(Last(log[..i], log[i].pid), log[i]) && Answers(decide, log[..i], log[i])
    decreases |log|
  {
    var before := log[..|log| - 1];
    if i == |log| - 1 {
    } else {
      MediatedAt(before, decide, i);
      assert before[..i] == log[..i];
    }
  }

  /** The same, by position: the previous entry is adjacent to this one. */
  lemma PreviousEntry(log: seq<Entry>, decide: Decider, i: nat) returns (j: int)
    requires Mediated(log, decide) && i < |log|
    ensures Follows(Last(log[..i], log[i].pid), log[i]) && Answers(decide, log[..i], log[i])
    ensures if Last(log[..i], log[i].pid).None? then j == -1
            else Adjacent(log, j, i) && log[j] == Last(log[..i], log[i].pid).value && Answers(decide, log[..j], log[j])
  {
    MediatedAt(log, decide, i);
    if Last(log[..i], log[i].pid).None? {
      j := -1;
    } else {
      j := LastIndex(log[..i], log[i].pid);
      MediatedAt(log, decide, j);
      assert forall m :: 0 <= m < i ==> log[m] == log[..i][m];
    }
  }

  lemma StartHolds(root: Pid, decide: Decider)
    ensures Inv(Start(root), decide)
  {
    assert root in Start(root).status;
  }

  /** In every run the simulation invariant holds at the loop head, and the loop ends only by returning
      or by an exception of the callback: no lookup in the map fails and no assertion does. */
  lemma SimulationInvariant(root: Pid, turns: seq<Turn>, decide: Decider)
    ensures var s := Play(Start(root), turns, decide);
            Inv(s, decide) || Ended(s, decide)
  {
    StartHolds(root, decide);
    PlayKeeps(Start(root), turns, decide);
  }

  /** The kernel is running call c for this thread, or about to let it leave. */
  predicate InCall(t: Thread) { t.phase.Executing? || t.phase.Leaving? }

  /** The entry stop was resumed and the call not yet run. */
  predicate AboutToRun(t: Thread) {
    t.run.Running? && t.phase.Executing? && !t.phase.done && t.phase.call.nr != NO_CALL
  }

  /** What the map says about a living thread, at every loop head of every run: user space exactly when the
      thread is in user mode or its entry stop still waits to be reported; allowed or denied exactly when it
      is inside a call whose latest decision was that; and the kernel can run the call only if allowed. */
  lemma MapAgreesWithKernel(root: Pid, turns: seq<Turn>, decide: Decider, p: Pid)
    requires Play(Start(root), turns, decide).outcome.Tracing?
    requires p in Play(Start(root), turns, decide).k.threads
    requires !Play(Start(root), turns, decide).k.threads[p].run.Dead?
    ensures var s := Play(Start(root), turns, decide);
            var t := s.k.threads[p];
            var last := Last(s.k.log, p);
            && (p !in s.status ==> t.phase.User? && t.run == Stopped(SIGSTOP, false))
            && (p in s.status ==>
                  && (s.status[p] == USERSPACE <==> !InCall(t))
                  && (s.status[p] == KERNELSPACE_ALLOW <==> InCall(t) && last.Some? && !last.value.Refused?)
                  && (s.status[p] == KERNELSPACE_DENY <==> InCall(t) && last == Some(Refused(p, t.phase.call)))
                  && (CanExecute(t) <==> s.status[p] == KERNELSPACE_ALLOW && AboutToRun(t)))
            && (t.phase.Entering? || t.phase.Leaving? ==> t.run == Stopped(SYSCALL_STOP, false))
  {
    SimulationInvariant(root, turns, decide);
    var s := Play(Start(root), turns, decide);
    assert Sound(p, s.k.threads[p], Get(s.status, p), Last(s.k.log, p));
  }

  /** Every executed call was approved, with that number and those arguments, by the callback's latest
      answer about that very thread. */
  lemma ExecutedOnlyIfApproved(root: Pid, turns: seq<Turn>, decide: Decider, i: nat)
    requires i < |Play(Start(root), turns, decide).k.log|
    requires Play(Start(root), turns, decide).k.log[i].Executed?
    ensures var log := Play(Start(root), turns, decide).k.log;
            var p, c := log[i].pid, log[i].call;
            exists j :: Adjacent(log, j, i) && log[j] == Approved(p, c) && decide(log[..j], p, c) == Allow
  {
    SimulationInvariant(root, turns, decide);
    var log := Play(Start(root), turns, decide).k.log;
    var j := PreviousEntry(log, decide, i);
  }

  function Approvals(log: seq<Entry>, p: Pid, c: Call): nat {
    if log == [] then 0
    else Approvals(log[..|log| - 1], p, c) + if log[|log| - 1] == Approved(p, c) then 1 else 0
  }

  function Executions(log: seq<Entry>, p: Pid, c: Call): nat {
    if log == [] then 0
    else Executions(log[..|log| - 1], p, c) +
         if log[|log| - 1].Executed? && log[|log| - 1].pid == p && log[|log| - 1].call == c then 1 else 0
  }

  lemma {:induction false} ApprovalsCoverExecutions(log: seq<Entry>, p: Pid, c: Call, decide: Decider)
    requires Mediated(log, decide)
    ensures Executions(log, p, c) + (if Last(log, p) == Some(Approved(p, c)) then 1 else 0) <= Approvals(log, p, c)
    decreases |log|
  {
    if log == [] {
    } else {
      ApprovalsCoverExecutions(log[..|log| - 1], p, c, decide);
    }
  }

  /** One approval serves at most one executed call. */
  lemma ApprovalServesOnce(root: Pid, turns: seq<Turn>, decide: Decider, p: Pid, c: Call)
    ensures var log := Play(Start(root), turns, decide).k.log;
            Executions(log, p, c) <= Approvals(log, p, c)
  {
    SimulationInvariant(root, turns, decide);
    ApprovalsCoverExecutions(Play(Start(root), turns, decide).k.log, p, c, decide);
  }

  lemma {:induction false} NoLast(log: seq<Entry>, p: Pid, j: int)
    requires 0 <= j < |log| && log[j].pid == p
    ensures Last(log, p).Some?
    decreases |log|
  {
    if log[|log| - 1].pid == p {
    } else {
      NoLast(log[..|log| - 1], p, j);
    }
  }

  /** A denied call executes nothing: the thread's next entry, if it survives, is its return with -EPERM. */
  lemma DeniedReturnsEperm(root: Pid, turns: seq<Turn>, decide: Decider, j: int, i: int)
    requires var log := Play(Start(root), turns, decide).k.log;
             Adjacent(log, j, i) && log[j].Refused?
    ensures var log := Play(Start(root), turns, decide).k.log;
            log[i] == Returned(log[j].pid, log[j].call, 0xffff_ffff_ffff_ffff) && decide(log[..j], log[j].pid, log[j].call) == Deny
  {
    SimulationInvariant(root, turns, decide);
    var log := Play(Start(root), turns, decide).k.log;
    var j' := PreviousEntry(log, decide, i);
    if Last(log[..i], log[i].pid).None? {
      NoLast(log[..i], log[i].pid, j);
    } else {
      assert j' == j;
    }
  }

  /** What user space gets back: the executed call's own result, -EPERM for a denied call, and
      -ENOSYS for an approved call whose number was already -1. */
  lemma ReturnsAreExplained(root: Pid, turns: seq<Turn>, decide: Decider, i: nat)
    requires i < |Play(Start(root), turns, decide).k.log|
    requires Play(Start(root), turns, decide).k.log[i].Returned?
    ensures var log := Play(Start(root), turns, decide).k.log;
            var p, c, rax := log[i].pid, log[i].call, log[i].rax;
            exists j :: Adjacent(log, j, i) &&
              (|| log[j] == Executed(p, c, rax)
               || (log[j] == Refused(p, c) && rax == 0xffff_ffff_ffff_ffff)
               || (log[j] == Approved(p, c) && c.nr == 0xffff_ffff_ffff_ffff && rax == 0xffff_ffff_ffff_ffda))
  {
    SimulationInvariant(root, turns, decide);
    var log := Play(Start(root), turns, decide).k.log;
    var j := PreviousEntry(log, decide, i);
  }
}
