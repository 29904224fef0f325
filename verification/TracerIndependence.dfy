/**
  Threads do not influence each other through the tracer. A one-thread
  automaton, which knows neither the map nor the shared parser target, replays
  the events of a single thread; every run of the whole system agrees with it,
  for every thread and every interleaving.
 */
module TracerIndependence {
  import opened Base
  import opened Kernel
  import opened TracerLoop

  /** A thread's own part of a log. */
  function Of(log: seq<Entry>, p: Pid): seq<Entry> {
    if log == [] then []
    else Of(log[..|log| - 1], p) + if log[|log| - 1].pid == p then [log[|log| - 1]] else []
  }

  lemma OfSnoc(log: seq<Entry>, e: Entry, p: Pid)
    ensures Of(log + [e], p) == if e.pid == p then Of(log, p) + [e] else Of(log, p)
  {
    assert (log + [e])[..|log|] == log;
  }

  /** The callback's answers about a thread depend on that thread's history only. */
  ghost predicate Private(decide: Decider) {
    forall log, p, c :: decide(log, p, c) == decide(Of(log, p), p, c)
  }

  // ---- the one-thread automaton -----------------------------------------

  /** All that exists about one thread. */
  datatype Local = Local(thread: Option<Thread>, status: Option<ThreadStatus>, log: seq<Entry>)

  datatype LocalResult = LocalResult(local: Local, ok: bool)

  function LLet(l: Local, a: Action): Local {
    if l.thread.None? then l
    else l.(thread := Some(Move(l.thread.value, a)), log := l.log + Trail(l.thread.value, a))
  }

  function LLetAll(l: Local, actions: seq<Action>): Local
    decreases |actions|
  {
    if actions == [] then l else LLetAll(LLet(l, actions[0]), actions[1..])
  }

  predicate LHeld(l: Local) { l.thread.Some? && Held(l.thread.value) }

  function LContinue(l: Local, p: Pid, gap: seq<Action>): Local {
    var l := LLetAll(l, gap);
    if !LHeld(l) then l
    else l.(thread := Some(Released(l.thread.value)), log := l.log + ReleaseTrail(l.thread.value, p))
  }

  function LRewrite(l: Local, p: Pid, g: Gaps, entry: bool, next: ThreadStatus): Local {
    var l1 := LLetAll(l, g.getregs);
    var l2 := LLetAll(l1, g.setregs);
    if !LHeld(l1) || !LHeld(l2) then LLetAll(l2, g.cont)
    else
      var t := if entry then l2.thread.value.(origRax := NO_CALL, rax := l1.thread.value.rax)
               else l2.thread.value.(origRax := l1.thread.value.origRax, rax := MINUS_EPERM);
      LContinue(l2.(thread := Some(t), status := Some(next)), p, g.cont)
  }

  function LEntry(l: Local, p: Pid, g: Gaps, decide: Decider): LocalResult {
    var l := LLetAll(l, g.info);
    if !LHeld(l) then LocalResult(LLetAll(l, Late(g)), true)
    else if !l.thread.value.phase.Entering? then LocalResult(l, false)
    else
      var call := l.thread.value.phase.call.(nr := l.thread.value.origRax);
      match decide(l.log, p, call)
      case Abort => LocalResult(l, false)
      case Allow =>
        LocalResult(LContinue(l.(log := l.log + [Approved(p, call)], status := Some(KERNELSPACE_ALLOW)), p, Late(g)), true)
      case Deny =>
        LocalResult(LRewrite(l.(log := l.log + [Refused(p, call)]), p, g, true, KERNELSPACE_DENY), true)
  }

  function LStop(l: Local, p: Pid, sig: nat, g: Gaps, decide: Decider): LocalResult {
    if sig == SIGSTOP then
      LocalResult(LContinue(if l.status.Some? then l else l.(status := Some(USERSPACE)), p, Everything(g)), true)
    else if sig != SYSCALL_STOP then LocalResult(LContinue(l, p, Everything(g)), true)
    else
      match l.status
      case None => LocalResult(l, false)
      case Some(USERSPACE) => LEntry(l, p, g, decide)
      case Some(KERNELSPACE_DENY) => LocalResult(LRewrite(LLetAll(l, g.info), p, g, false, USERSPACE), true)
      case Some(KERNELSPACE_ALLOW) =>
        LocalResult(LContinue(l.(status := Some(USERSPACE)), p, Everything(g)), true)
  }

  /** One event of thread p: its own action, or a turn of the tracer about it. */
  function LTake(l: Local, p: Pid, t: Turn, decide: Decider): LocalResult {
    match t
    case Env(a) => LocalResult(LLet(l, a), true)
    case Poll(_, g) =>
      if l.thread.None? then LocalResult(l, true)
      else
        match PendingOf(l.thread.value)
        case None => LocalResult(LLetAll(l, Everything(g)), true)
        case Some(Gone(_)) => LocalResult(l.(thread := None, status := None), true)
        case Some(Stop(sig)) =>
          LStop(l.(thread := Some(l.thread.value.(run := Stopped(sig, true)))), p, sig, g, decide)
  }

  function LPlay(l: Local, p: Pid, turns: seq<Turn>, decide: Decider): Local
    decreases |turns|
  {
    if turns == [] then l else LPlay(LTake(l, p, turns[0], decide).local, p, turns[1..], decide)
  }

  // ---- projection of a schedule -----------------------------------------

  function Own(actions: seq<Action>, p: Pid): seq<Action>
    decreases |actions|
  {
    if actions == [] then []
    else if actions[0].pid == p then [actions[0]] + Own(actions[1..], p)
    else Own(actions[1..], p)
  }

  function OwnGaps(g: Gaps, p: Pid): Gaps {
    Gaps(Own(g.info, p), Own(g.getregs, p), Own(g.setregs, p), Own(g.cont, p))
  }

  function Envs(actions: seq<Action>): seq<Turn>
    decreases |actions|
  {
    if actions == [] then [] else [Env(actions[0])] + Envs(actions[1..])
  }

  /** Thread p's share of a turn. */
  function Share(t: Turn, p: Pid): seq<Turn> {
    match t
    case Env(a) => if a.pid == p then [t] else []
    case Poll(q, g) => if q == p then [Poll(p, OwnGaps(g, p))] else Envs(Own(Everything(g), p))
  }

  function Project(turns: seq<Turn>, p: Pid): seq<Turn>
    decreases |turns|
  {
    if turns == [] then [] else Share(turns[0], p) + Project(turns[1..], p)
  }

  // ---- simulation ---------------------------------------------------------

  function View(k: KState, status: map<Pid, ThreadStatus>, p: Pid): Local {
    Local(Get(k.threads, p), Get(status, p), Of(k.log, p))
  }

  lemma {:induction false} LLetAllConcat(l: Local, a: seq<Action>, b: seq<Action>)
    ensures LLetAll(l, a + b) == LLetAll(LLetAll(l, a), b)
    decreases |a|
  {
    if a == [] {
      assert a + b == b;
    } else {
      assert (a + b)[1..] == a[1..] + b;
      LLetAllConcat(LLet(l, a[0]), a[1..], b);
    }
  }

  lemma {:induction false} OwnConcat(a: seq<Action>, b: seq<Action>, p: Pid)
    ensures Own(a + b, p) == Own(a, p) + Own(b, p)
    decreases |a|
  {
    if a == [] {
      assert a + b == b;
    } else {
      assert (a + b)[1..] == a[1..] + b;
      OwnConcat(a[1..], b, p);
    }
  }

  lemma OfTrail(log: seq<Entry>, t: Thread, a: Action, p: Pid)
    ensures Of(log + Trail(t, a), p) == if a.pid == p then Of(log, p) + Trail(t, a) else Of(log, p)
  {
    if Trail(t, a) == [] {
      assert log + [] == log && Of(log, p) + [] == Of(log, p);
    } else {
      OfSnoc(log, Trail(t, a)[0], p);
    }
  }

  lemma LetView(k: KState, a: Action, status: map<Pid, ThreadStatus>, p: Pid)
    requires p in k.born
    ensures p in Let(k, a).born
    ensures View(Let(k, a), status, p) == if a.pid == p then LLet(View(k, status, p), a) else View(k, status, p)
  {
    if a.pid in k.threads {
      OfTrail(k.log, k.threads[a.pid], a, p);
      hide Of, Trail, Move;
    }
  }

  lemma {:induction false} LetAllView(k: KState, actions: seq<Action>, status: map<Pid, ThreadStatus>, p: Pid)
    requires p in k.born
    ensures p in LetAll(k, actions).born
    ensures View(LetAll(k, actions), status, p) == LLetAll(View(k, status, p), Own(actions, p))
    decreases |actions|
  {
    if actions == [] {
    } else {
      var rest := Own(actions[1..], p);
      assert ([actions[0]] + rest)[1..] == rest;
      LetView(k, actions[0], status, p);
      LetAllView(Let(k, actions[0]), actions[1..], status, p);
    }
  }

  /** p's view of a system after the turn of thread q is `l`. */
  ghost predicate Shows(s: Sys, p: Pid, l: Local) {
    p in s.k.born && View(s.k, s.status, p) == l
  }

  lemma ContinueView(s: Sys, q: Pid, gap: seq<Action>, p: Pid)
    requires p in s.k.born
    ensures var l := View(s.k, s.status, p);
            Shows(Continue(s, q, gap), p, if p == q then LContinue(l, p, Own(gap, p)) else LLetAll(l, Own(gap, p)))
  {
    LetAllView(s.k, gap, s.status, p);
    var k := LetAll(s.k, gap);
    if AtStop(k, q) {
      var trail := ReleaseTrail(k.threads[q], q);
      if trail == [] {
        assert k.log + trail == k.log;
      } else {
        OfSnoc(k.log, trail[0], p);
      }
    }
  }

  lemma GiveUpView(s: Sys, k: KState, q: Pid, rest: seq<Action>, p: Pid)
    requires p in k.born
    ensures Shows(GiveUp(s, k, q, rest), p, LLetAll(View(k, s.status, p), Own(rest, p)))
  {
    LetAllView(Esrch(k, q), rest, s.status, p);
  }

  lemma LateShare(l: Local, g: Gaps, p: Pid)
    ensures Own(Late(g), p) == Late(OwnGaps(g, p))
    ensures LLetAll(l, Late(OwnGaps(g, p))) ==
            LLetAll(LLetAll(LLetAll(l, Own(g.getregs, p)), Own(g.setregs, p)), Own(g.cont, p))
  {
    var o := OwnGaps(g, p);
    OwnConcat(g.getregs + g.setregs, g.cont, p);
    OwnConcat(g.getregs, g.setregs, p);
    LLetAllConcat(l, o.getregs + o.setregs, o.cont);
    LLetAllConcat(l, o.getregs, o.setregs);
  }

  lemma RewriteView(s: Sys, q: Pid, g: Gaps, entry: bool, next: ThreadStatus, p: Pid)
    requires p in s.k.born
    ensures var l := View(s.k, s.status, p);
            Shows(Rewrite(s, q, g, entry, next), p,
                  if p == q then LRewrite(l, p, OwnGaps(g, p), entry, next) else LLetAll(l, Own(Late(g), p)))
  {
    var l := View(s.k, s.status, p);
    var o := OwnGaps(g, p);
    LateShare(l, g, p);
    LetAllView(s.k, g.getregs, s.status, p);
    var k1 := LetAll(s.k, g.getregs);
    if !AtStop(k1, q) {
      GiveUpView(s, k1, q, g.setregs + g.cont, p);
      OwnConcat(g.setregs, g.cont, p);
      LLetAllConcat(View(k1, s.status, p), o.setregs, o.cont);
    } else {
      LetAllView(k1, g.setregs, s.status, p);
      var k2 := LetAll(k1, g.setregs);
      if !AtStop(k2, q) {
        GiveUpView(s, k2, q, g.cont, p);
      } else {
        var t := k1.threads[q];
        var k3 := if entry then SetRegs(k2, q, NO_CALL, t.rax) else SetRegs(k2, q, t.origRax, MINUS_EPERM);
        ContinueView(s.(k := k3, status := s.status[q := next]), q, g.cont, p);
      }
    }
  }

  lemma EverythingShare(l: Local, g: Gaps, p: Pid)
    ensures Own(Everything(g), p) == Everything(OwnGaps(g, p))
    ensures LLetAll(l, Everything(OwnGaps(g, p))) == LLetAll(LLetAll(l, Own(g.info, p)), Late(OwnGaps(g, p)))
  {
    OwnConcat(g.info, Late(g), p);
    LateShare(l, g, p);
    LLetAllConcat(l, Own(g.info, p), Late(OwnGaps(g, p)));
  }

  /** A turn about q as p sees it: the automaton's step if p == q, p's own actions otherwise. */
  ghost predicate Faithful(before: Local, s: Sys, q: Pid, g: Gaps, p: Pid, r: LocalResult) {
    if p == q then (s.outcome.Tracing? <==> r.ok) && (r.ok ==> Shows(s, p, r.local))
    else s.outcome.Tracing? ==> Shows(s, p, LLetAll(before, Own(Everything(g), p)))
  }

  lemma AllowView(s: Sys, k: KState, q: Pid, call: Call, g: Gaps, p: Pid)
    requires p in k.born
    ensures var l := View(k, s.status, p);
            Shows(Continue(Allowing(s, k, q, call), q, Late(g)), p,
                  if p == q
                  then LContinue(l.(log := l.log + [Approved(p, call)], status := Some(KERNELSPACE_ALLOW)), p, Own(Late(g), p))
                  else LLetAll(l, Own(Late(g), p)))
  {
    OfSnoc(k.log, Approved(q, call), p);
    ContinueView(Allowing(s, k, q, call), q, Late(g), p);
  }

  lemma DenyView(s: Sys, k: KState, q: Pid, call: Call, g: Gaps, p: Pid)
    requires p in k.born
    ensures var l := View(k, s.status, p);
            Shows(Rewrite(Denying(s, k, q, call), q, g, true, KERNELSPACE_DENY), p,
                  if p == q
                  then LRewrite(l.(log := l.log + [Refused(p, call)]), p, OwnGaps(g, p), true, KERNELSPACE_DENY)
                  else LLetAll(l, Own(Late(g), p)))
  {
    OfSnoc(k.log, Refused(q, call), p);
    RewriteView(Denying(s, k, q, call), q, g, true, KERNELSPACE_DENY, p);
  }

  lemma OnEntryView(s: Sys, q: Pid, g: Gaps, decide: Decider, p: Pid)
    requires s.outcome.Tracing? && p in s.k.born && Private(decide)
    ensures var l := View(s.k, s.status, p);
            Faithful(l, OnEntry(s, q, g, decide), q, g, p, LEntry(l, p, OwnGaps(g, p), decide))
  {
    var l := View(s.k, s.status, p);
    EverythingShare(l, g, p);
    LetAllView(s.k, g.info, s.status, p);
    var k := LetAll(s.k, g.info);
    LateShare(View(k, s.status, p), g, p);
    if !AtStop(k, q) {
      GiveUpView(s, k, q, Late(g), p);
    } else if k.threads[q].phase.Entering? {
      var call := k.threads[q].phase.call.(nr := k.threads[q].origRax);
      assert decide(k.log, q, call) == decide(Of(k.log, q), q, call);
      match decide(k.log, q, call)
      case Abort =>
      case Allow =>
        AllowView(s, k, q, call, g, p);
      case Deny =>
        DenyView(s, k, q, call, g, p);
    }
  }

  lemma OnStopView(s: Sys, q: Pid, sig: nat, g: Gaps, decide: Decider, p: Pid)
    requires s.outcome.Tracing? && p in s.k.born && Private(decide)
    ensures var l := View(s.k, s.status, p);
            Faithful(l, OnStop(s, q, sig, g, decide), q, g, p, LStop(l, p, sig, OwnGaps(g, p), decide))
  {
    var l := View(s.k, s.status, p);
    EverythingShare(l, g, p);
    if sig == SIGSTOP {
      ContinueView(if q in s.status then s else s.(status := s.status[q := USERSPACE]), q, Everything(g), p);
    } else if sig != SYSCALL_STOP {
      ContinueView(s, q, Everything(g), p);
    } else if q in s.status {
      match s.status[q]
      case USERSPACE =>
        OnEntryView(s, q, g, decide, p);
      case KERNELSPACE_DENY =>
        LetAllView(s.k, g.info, s.status, p);
        LateShare(View(LetAll(s.k, g.info), s.status, p), g, p);
        RewriteView(s.(k := LetAll(s.k, g.info)), q, g, false, USERSPACE, p);
      case KERNELSPACE_ALLOW =>
        ContinueView(s.(status := s.status[q := USERSPACE]), q, Everything(g), p);
    }
  }

  lemma {:induction false} NobodyMoves(l: Local, actions: seq<Action>)
    requires l.thread.None?
    ensures LLetAll(l, actions) == l
    decreases |actions|
  {
    if actions == [] {
    } else {
      NobodyMoves(l, actions[1..]);
    }
  }

  lemma PollView(s: Sys, q: Pid, g: Gaps, decide: Decider, p: Pid)
    requires s.outcome.Tracing? && p in s.k.born && Private(decide)
    ensures var l := View(s.k, s.status, p);
            var s' := Iterate(s, q, g, decide);
            s'.outcome.Finished? || Faithful(l, s', q, g, p, LTake(l, p, Poll(p, OwnGaps(g, p)), decide))
  {
    var l := View(s.k, s.status, p);
    EverythingShare(l, g, p);
    match Pending(s.k, q)
    case None =>
      LetAllView(s.k, Everything(g), s.status, p);
      if l.thread.None? {
        NobodyMoves(l, Everything(OwnGaps(g, p)));
      }
    case Some(Gone(e)) =>
      var k := Deliver(s.k, q);
      LetAllView(k, Everything(g), s.status - {q}, p);
      if p == q {
        NobodyMoves(l.(thread := None, status := None), Everything(OwnGaps(g, p)));
      }
    case Some(Stop(sig)) =>
      OnStopView(s.(k := Deliver(s.k, q)), q, sig, g, decide, p);
  }

  lemma {:induction false} EnvsPlay(l: Local, actions: seq<Action>, p: Pid, decide: Decider)
    ensures LPlay(l, p, Envs(actions), decide) == LLetAll(l, actions)
    decreases |actions|
  {
    if actions == [] {
    } else {
      assert Envs(actions)[1..] == Envs(actions[1..]);
      EnvsPlay(LLet(l, actions[0]), actions[1..], p, decide);
    }
  }

  lemma {:induction false} LPlayConcat(l: Local, a: seq<Turn>, b: seq<Turn>, p: Pid, decide: Decider)
    ensures LPlay(l, p, a + b, decide) == LPlay(LPlay(l, p, a, decide), p, b, decide)
    decreases |a|
  {
    if a == [] {
      assert a + b == b;
    } else {
      assert (a + b)[1..] == a[1..] + b;
      LPlayConcat(LTake(l, p, a[0], decide).local, a[1..], b, p, decide);
    }
  }

  /** One turn of the system is, to thread p, its share of that turn. */
  lemma TakeView(s: Sys, t: Turn, decide: Decider, p: Pid)
    requires p in s.k.born && Private(decide)
    requires s.outcome.Tracing? && Take(s, t, decide).outcome.Tracing?
    ensures Shows(Take(s, t, decide), p, LPlay(View(s.k, s.status, p), p, Share(t, p), decide))
  {
    var l := View(s.k, s.status, p);
    match t
    case Env(a) =>
      LetView(s.k, a, s.status, p);
    case Poll(q, g) =>
      PollView(s, q, g, decide, p);
      EnvsPlay(l, Own(Everything(g), p), p, decide);
  }

  lemma {:induction false} TracingThroughout(s: Sys, turns: seq<Turn>, decide: Decider)
    requires Play(s, turns, decide).outcome.Tracing?
    ensures s.outcome.Tracing?
    decreases |turns|
  {
    if turns == [] {
    } else {
      TracingThroughout(Take(s, turns[0], decide), turns[1..], decide);
    }
  }

  /** As long as the loop runs, a thread's state, status and history are those of the one-thread automaton
      on that thread's own share of the schedule. */
  lemma {:induction false} Independence(s: Sys, turns: seq<Turn>, decide: Decider, p: Pid)
    requires p in s.k.born && Private(decide)
    requires Play(s, turns, decide).outcome.Tracing?
    ensures Shows(Play(s, turns, decide), p, LPlay(View(s.k, s.status, p), p, Project(turns, p), decide))
    decreases |turns|
  {
    if turns == [] {
    } else {
      TracingThroughout(s, turns, decide);
      TracingThroughout(Take(s, turns[0], decide), turns[1..], decide);
      TakeView(s, turns[0], decide, p);
      Independence(Take(s, turns[0], decide), turns[1..], decide, p);
      LPlayConcat(View(s.k, s.status, p), Share(turns[0], p), Project(turns[1..], p), p, decide);
    }
  }

  /** Two interleavings with the same share for p are the same to p. */
  lemma InterleavingDoesNotMatter(s: Sys, turns1: seq<Turn>, turns2: seq<Turn>, decide: Decider, p: Pid)
    requires p in s.k.born && Private(decide)
    requires Play(s, turns1, decide).outcome.Tracing? && Play(s, turns2, decide).outcome.Tracing?
    requires Project(turns1, p) == Project(turns2, p)
    ensures var s1, s2 := Play(s, turns1, decide), Play(s, turns2, decide);
            View(s1.k, s1.status, p) == View(s2.k, s2.status, p)
  {
    Independence(s, turns1, decide, p);
    Independence(s, turns2, decide, p);
  }
}
