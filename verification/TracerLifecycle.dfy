/** The life cycle of the tracer's map and the fate of every reported stop. */
module TracerLifecycle {
  import opened Base
  import opened Kernel
  import opened TracerLoop
  import opened TracerSafety
  import opened TracerTheorems

  /** How often waitpid reported a stop of p. */
  function StopsOf(reports: seq<Report>, p: Pid): nat {
    if reports == [] then 0
    else
      var last := reports[|reports| - 1];
      StopsOf(reports[..|reports| - 1], p) + if last.pid == p && last.wait.Stop? then 1 else 0
  }

  /** p is the first thread, or its initial SIGSTOP was reported. */
  predicate Registered(reports: seq<Report>, root: Pid, p: Pid) {
    p == root || Report(p, Stop(SIGSTOP)) in reports
  }

  predicate ExitReported(reports: seq<Report>, p: Pid) {
    exists i :: 0 <= i < |reports| && reports[i].pid == p && reports[i].wait.Gone?
  }

  /** Pids are not reused, the dead stay dead, and waitpid was not called. */
  ghost predicate Onward(k: KState, k': KState) {
    && k'.reports == k.reports
    && k.born <= k'.born
    && (forall p :: p in k.born && p in k'.threads ==>
          p in k.threads && (k.threads[p].run.Dead? ==> k'.threads[p].run.Dead?))
  }

  ghost predicate Quiet(k: KState, k': KState) {
    Onward(k, k') && k'.resumed == k.resumed && k'.lost == k.lost
  }

  /** Only p acts. */
  ghost predicate By(actions: seq<Action>, p: Pid) { forall a :: a in actions ==> a.pid == p }

  /** p's turn was spent: either p was resumed and runs, or p is dead and an ESRCH said so. A thread spends
      its turn without creating others. */
  ghost predicate Spent(k: KState, k': KState, p: Pid, alone: bool) {
    && Onward(k, k')
    && (alone ==> k'.born == k.born)
    && p in k'.threads
    && (|| (k'.resumed == k.resumed + multiset{p} && k'.lost == k.lost && k'.threads[p].run.Running?)
        || (k'.resumed == k.resumed && k'.lost == k.lost + {p} && k'.threads[p].run.Dead?))
  }

  predicate Captive(k: KState, p: Pid) {
    p in k.threads && p in k.born && (Held(k.threads[p]) || k.threads[p].run.Dead?)
  }

  lemma {:induction false} LetAllQuiet(k: KState, actions: seq<Action>, p: Pid)
    ensures Quiet(k, LetAll(k, actions))
    ensures Captive(k, p) ==> Captive(LetAll(k, actions), p)
    ensures Captive(k, p) && By(actions, p) ==> LetAll(k, actions).born == k.born
    decreases |actions|
  {
    if actions == [] {
    } else {
      LetAllQuiet(Let(k, actions[0]), actions[1..], p);
    }
  }

  lemma ByParts(g: Gaps, p: Pid)
    ensures By(Everything(g), p) <==> By(g.info, p) && By(Late(g), p)
    ensures By(Late(g), p) <==> By(g.getregs, p) && By(g.setregs, p) && By(g.cont, p)
    ensures By(g.setregs + g.cont, p) <==> By(g.setregs, p) && By(g.cont, p)
  {
    assert forall a :: a in Everything(g) <==> a in g.info || a in Late(g);
    assert forall a :: a in Late(g) <==> a in g.getregs || a in g.setregs || a in g.cont;
  }

  lemma ContinueSpends(s: Sys, p: Pid, gap: seq<Action>)
    requires Captive(s.k, p)
    ensures Spent(s.k, Continue(s, p, gap).k, p, By(gap, p))
  {
    LetAllQuiet(s.k, gap, p);
  }

  lemma GiveUpSpends(s: Sys, k: KState, p: Pid, rest: seq<Action>)
    requires Captive(k, p) && !AtStop(k, p)
    ensures Spent(k, GiveUp(s, k, p, rest).k, p, By(rest, p))
  {
    LetAllQuiet(Esrch(k, p), rest, p);
  }

  lemma RewriteSpends(s: Sys, p: Pid, g: Gaps, entry: bool, next: ThreadStatus)
    requires Captive(s.k, p)
    ensures Spent(s.k, Rewrite(s, p, g, entry, next).k, p, By(Late(g), p))
  {
    ByParts(g, p);
    LetAllQuiet(s.k, g.getregs, p);
    var k1 := LetAll(s.k, g.getregs);
    if !AtStop(k1, p) {
      GiveUpSpends(s, k1, p, g.setregs + g.cont);
    } else {
      LetAllQuiet(k1, g.setregs, p);
      var k2 := LetAll(k1, g.setregs);
      if !AtStop(k2, p) {
        GiveUpSpends(s, k2, p, g.cont);
      } else {
        var t := k1.threads[p];
        var k3 := if entry then SetRegs(k2, p, NO_CALL, t.rax) else SetRegs(k2, p, t.origRax, MINUS_EPERM);
        ContinueSpends(s.(k := k3, status := s.status[p := next]), p, g.cont);
      }
    }
  }

  lemma OnEntrySpends(s: Sys, p: Pid, g: Gaps, decide: Decider)
    requires s.outcome.Tracing? && p in s.status && Captive(s.k, p)
    requires OnEntry(s, p, g, decide).outcome.Tracing?
    ensures Spent(s.k, OnEntry(s, p, g, decide).k, p, By(Everything(g), p))
    ensures OnEntry(s, p, g, decide).status.Keys == s.status.Keys
  {
    ByParts(g, p);
    LetAllQuiet(s.k, g.info, p);
    var k := LetAll(s.k, g.info);
    if !AtStop(k, p) {
      GiveUpSpends(s, k, p, Late(g));
    } else {
      var call := k.threads[p].phase.call.(nr := k.threads[p].origRax);
      match decide(k.log, p, call)
      case Allow =>
        ContinueSpends(Allowing(s, k, p, call), p, Late(g));
      case Deny =>
        RewriteSpends(Denying(s, k, p, call), p, g, true, KERNELSPACE_DENY);
    }
  }

  /** A turn on a reported stop ends with exactly one resume or one ESRCH. */
  lemma OnStopSpends(s: Sys, p: Pid, sig: nat, g: Gaps, decide: Decider)
    requires s.outcome.Tracing? && Captive(s.k, p)
    requires OnStop(s, p, sig, g, decide).outcome.Tracing?
    ensures Spent(s.k, OnStop(s, p, sig, g, decide).k, p, By(Everything(g), p))
    ensures OnStop(s, p, sig, g, decide).status.Keys == s.status.Keys + if sig == SIGSTOP then {p} else {}
  {
    ByParts(g, p);
    if sig == SIGSTOP {
      ContinueSpends(if p in s.status then s else s.(status := s.status[p := USERSPACE]), p, Everything(g));
    } else if sig == SYSCALL_STOP {
      match s.status[p]
      case USERSPACE =>
        OnEntrySpends(s, p, g, decide);
      case KERNELSPACE_DENY =>
        LetAllQuiet(s.k, g.info, p);
        RewriteSpends(s.(k := LetAll(s.k, g.info)), p, g, false, USERSPACE);
      case KERNELSPACE_ALLOW =>
        ContinueSpends(s.(status := s.status[p := USERSPACE]), p, Everything(g));
    } else {
      ContinueSpends(s, p, Everything(g));
    }
  }

  lemma OnStopNeverFinishes(s: Sys, p: Pid, sig: nat, g: Gaps, decide: Decider)
    requires s.outcome.Tracing?
    ensures !OnStop(s, p, sig, g, decide).outcome.Finished?
  {
  }

  predicate Balanced(k: KState, p: Pid) {
    StopsOf(k.reports, p) == k.resumed[p] + if p in k.lost then 1 else 0
  }

  /** Every stop of a thread was answered by a resume, except the last one of a thread lost to ESRCH. */
  ghost predicate Accounts(k: KState) {
    && (forall p :: p in k.lost ==> p in k.born && (p in k.threads ==> k.threads[p].run.Dead?))
    && (forall p :: Balanced(k, p))
  }

  ghost predicate Ledger(s: Sys, root: Pid) {
    && root in s.k.born
    && (forall p :: p in s.status <==> Registered(s.k.reports, root, p) && !ExitReported(s.k.reports, p))
    && (forall p :: ExitReported(s.k.reports, p) ==> p in s.k.born && p !in s.k.threads)
    && Accounts(s.k)
  }

  /** The loop returned with the status of this exit, or with 128 plus the number of the killing signal. */
  predicate CodeFollows(outcome: Outcome, last: Wait) {
    match last
    case Stop(_) => false
    case Gone(Exited(code)) => outcome == Finished(code)
    case Gone(Signaled(sig)) => outcome == Finished(128 + sig)
  }

  /** The loop has returned on its last report, an exit that left no registered thread. */
  ghost predicate Returned(s: Sys, root: Pid) {
    var reports := s.k.reports;
    && s.status == map[]
    && |reports| > 0
    && CodeFollows(s.outcome, reports[|reports| - 1].wait)
    && Registered(reports, root, reports[|reports| - 1].pid)
    && (forall p :: Registered(reports, root, p) ==> ExitReported(reports, p))
  }

  lemma ReportAdds(reports: seq<Report>, r: Report, root: Pid)
    ensures forall p :: Registered(reports + [r], root, p) <==> Registered(reports, root, p) || r == Report(p, Stop(SIGSTOP))
    ensures forall p :: ExitReported(reports + [r], p) <==> ExitReported(reports, p) || (r.pid == p && r.wait.Gone?)
  {
    var all := reports + [r];
    assert all[..|reports|] == reports;
    assert all[|reports|] == r;
    forall p ensures ExitReported(all, p) <==> ExitReported(reports, p) || (r.pid == p && r.wait.Gone?) {
      if ExitReported(reports, p) {
        var i :| 0 <= i < |reports| && reports[i].pid == p && reports[i].wait.Gone?;
        assert all[i] == reports[i];
      }
      if ExitReported(all, p) {
        var i :| 0 <= i < |all| && all[i].pid == p && all[i].wait.Gone?;
        assert i < |reports| ==> all[i] == reports[i];
      }
    }
  }

  lemma StopsSnoc(reports: seq<Report>, r: Report, p: Pid)
    ensures StopsOf(reports + [r], p) == StopsOf(reports, p) + if r.pid == p && r.wait.Stop? then 1 else 0
  {
    assert (reports + [r])[..|reports|] == reports;
  }

  /** A reported stop and the turn spent on it. */
  lemma StopAccounts(k: KState, p: Pid, sig: nat, k': KState, alone: bool)
    requires Accounts(k) && Pending(k, p) == Some(Stop(sig)) && p in k.born
    requires Spent(Deliver(k, p), k', p, alone)
    ensures Accounts(k')
  {
    assert Balanced(k, p) && p !in k.lost;
    forall q ensures Balanced(k', q) {
      assert Balanced(k, q);
      StopsSnoc(k.reports, Report(p, Stop(sig)), q);
    }
  }

  lemma ExitAccounts(k: KState, p: Pid, e: Exit)
    requires Accounts(k) && Pending(k, p) == Some(Gone(e))
    ensures Accounts(Deliver(k, p))
  {
    forall q ensures Balanced(Deliver(k, p), q) {
      assert Balanced(k, q);
      StopsSnoc(k.reports, Report(p, Gone(e)), q);
    }
  }

  lemma QuietLedger(s: Sys, k: KState, root: Pid)
    requires Ledger(s, root) && Quiet(s.k, k)
    ensures Ledger(s.(k := k), root)
  {
    forall p ensures Balanced(k, p) {
      assert Balanced(s.k, p);
    }
  }

  lemma StopLedger(s: Sys, p: Pid, sig: nat, g: Gaps, root: Pid, decide: Decider)
    requires s.outcome.Tracing? && Ledger(s, root)
    requires Pending(s.k, p) == Some(Stop(sig)) && p in s.k.born
    requires OnStop(s.(k := Deliver(s.k, p)), p, sig, g, decide).outcome.Tracing?
    ensures Ledger(OnStop(s.(k := Deliver(s.k, p)), p, sig, g, decide), root)
  {
    var s1 := s.(k := Deliver(s.k, p));
    ReportAdds(s.k.reports, Report(p, Stop(sig)), root);
    OnStopSpends(s1, p, sig, g, decide);
    hide OnStop, Registered, ExitReported, By, Accounts;
    StopAccounts(s.k, p, sig, OnStop(s1, p, sig, g, decide).k, By(Everything(g), p));
  }

  /** The exit is reported and the thread leaves the map, before anyone else acts. */
  lemma ExitReaped(s: Sys, p: Pid, e: Exit, root: Pid)
    requires s.outcome.Tracing? && s.status != map[] && Ledger(s, root)
    requires Pending(s.k, p) == Some(Gone(e)) && p in s.k.born
    ensures var (s1, reports) := (s.(k := Deliver(s.k, p), status := s.status - {p}), Deliver(s.k, p).reports);
            && Ledger(s1, root) && reports == s.k.reports + [Report(p, Gone(e))]
            && (s1.status == map[] ==> Registered(reports, root, p))
  {
    ReportAdds(s.k.reports, Report(p, Gone(e)), root);
    ExitAccounts(s.k, p, e);
    hide Registered, ExitReported, By, Accounts;
    if p !in s.status {
      assert s.status - {p} == s.status;
    }
  }

  lemma ExitLedger(s: Sys, p: Pid, e: Exit, g: Gaps, root: Pid)
    requires s.outcome.Tracing? && s.status != map[] && Ledger(s, root)
    requires Pending(s.k, p) == Some(Gone(e)) && p in s.k.born
    ensures var s' := OnExit(s.(k := Deliver(s.k, p)), p, e, g);
            && (s'.outcome.Tracing? ==> Ledger(s', root))
            && (s'.outcome.Finished? ==> Returned(s', root))
  {
    var s1 := s.(k := Deliver(s.k, p), status := s.status - {p});
    ExitReaped(s, p, e, root);
    hide Registered, ExitReported, By, LetAll, Accounts, Deliver;
    LetAllQuiet(s1.k, Everything(g), p);
    QuietLedger(s1, LetAll(s1.k, Everything(g)), root);
    if |s1.status| == 0 {
      assert s1.status == map[];
    }
  }

  lemma TakeLedger(s: Sys, turn: Turn, root: Pid, decide: Decider)
    requires Inv(s, decide) && Ledger(s, root)
    ensures var s' := Take(s, turn, decide);
            && (s'.outcome.Tracing? ==> Ledger(s', root))
            && (s'.outcome.Finished? ==> Returned(s', root))
  {
    match turn
    case Env(a) =>
      LetAllQuiet(s.k, [a], 0);
      assert LetAll(s.k, [a]) == Let(s.k, a);
      QuietLedger(s, Let(s.k, a), root);
    case Poll(p, g) =>
      match Pending(s.k, p)
      case None =>
        LetAllQuiet(s.k, Everything(g), p);
        QuietLedger(s, LetAll(s.k, Everything(g)), root);
      case Some(Gone(e)) =>
        ExitLedger(s, p, e, g, root);
      case Some(Stop(sig)) =>
        if Take(s, turn, decide).outcome.Tracing? {
          StopLedger(s, p, sig, g, root, decide);
        } else {
          OnStopNeverFinishes(s.(k := Deliver(s.k, p)), p, sig, g, decide);
        }
  }

  lemma {:induction false} PlayStuck(s: Sys, turns: seq<Turn>, decide: Decider)
    requires !s.outcome.Tracing?
    ensures Play(s, turns, decide) == s
    decreases |turns|
  {
    if turns == [] {
    } else {
      PlayStuck(s, turns[1..], decide);
    }
  }

  lemma {:induction false} PlayLedger(s: Sys, turns: seq<Turn>, root: Pid, decide: Decider)
    requires Inv(s, decide) && Ledger(s, root)
    ensures var s' := Play(s, turns, decide);
            && (s'.outcome.Tracing? ==> Ledger(s', root))
            && (s'.outcome.Finished? ==> Returned(s', root))
    decreases |turns|
  {
    if turns == [] {
    } else {
      var s' := Take(s, turns[0], decide);
      TakeKeeps(s, turns[0], decide);
      TakeLedger(s, turns[0], root, decide);
      if s'.outcome.Tracing? {
        PlayLedger(s', turns[1..], root, decide);
      } else {
        PlayStuck(s', turns[1..], decide);
      }
    }
  }

  lemma StartLedger(root: Pid)
    ensures Ledger(Start(root), root)
  {
  }

  /** While the loop runs, the map is non-empty and holds exactly the registered threads whose exit was
      not reported. The loop returns exactly on the exit that empties it, with that exit's code. */
  lemma MapLifecycle(root: Pid, turns: seq<Turn>, decide: Decider)
    ensures var s := Play(Start(root), turns, decide);
            && (s.outcome.Tracing? ==>
                  && s.status != map[]
                  && forall p :: p in s.status <==> Registered(s.k.reports, root, p) && !ExitReported(s.k.reports, p))
            && (s.outcome.Finished? ==> Returned(s, root))
  {
    StartHolds(root, decide);
    StartLedger(root);
    PlayLedger(Start(root), turns, root, decide);
    SimulationInvariant(root, turns, decide);
  }

  /** At every loop head, and so after every single turn, each thread was resumed exactly as often as its
      stops were reported, less one for a thread on which a request failed with ESRCH: such a thread is dead.
      No living thread is left in a reported stop. */
  lemma EveryStopResumedOnce(root: Pid, turns: seq<Turn>, decide: Decider)
    requires Play(Start(root), turns, decide).outcome.Tracing?
    ensures var s := Play(Start(root), turns, decide);
            && (forall p :: StopsOf(s.k.reports, p) == s.k.resumed[p] + if p in s.k.lost then 1 else 0)
            && (forall p :: p in s.k.lost && p in s.k.threads ==> s.k.threads[p].run.Dead?)
            && (forall p :: p in s.k.threads ==> !AtStop(s.k, p))
  {
    StartHolds(root, decide);
    StartLedger(root);
    PlayLedger(Start(root), turns, root, decide);
    SimulationInvariant(root, turns, decide);
    var k := Play(Start(root), turns, decide).k;
    forall p ensures StopsOf(k.reports, p) == k.resumed[p] + if p in k.lost then 1 else 0 {
      assert Balanced(k, p);
    }
  }
}
