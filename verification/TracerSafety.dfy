/**
  Safety of the tracer over every run: the invariant relating the tracer's map
  to the kernel, mediation of every call, and the life cycle of the map.
 */
module TracerSafety {
  import opened Base
  import opened Kernel
  import opened TracerLoop

  /** The latest entry of thread p in a log. */
  function Last(log: seq<Entry>, p: Pid): Option<Entry> {
    if log == [] then None
    else if log[|log| - 1].pid == p then Some(log[|log| - 1])
    else Last(log[..|log| - 1], p)
  }

  /** What a thread's latest entry allows next: the mediation discipline. */
  predicate Follows(last: Option<Entry>, e: Entry) {
    match e
    case Approved(_, _) => last.None? || last.value.Returned?
    case Refused(_, _) => last.None? || last.value.Returned?
    case Executed(p, c, _) => last == Some(Approved(p, c)) && c.nr != NO_CALL
    case Returned(p, c, rax) =>
      || last == Some(Executed(p, c, rax))
      || (last == Some(Approved(p, c)) && c.nr == NO_CALL && rax == MINUS_ENOSYS)
      || (last == Some(Refused(p, c)) && rax == MINUS_EPERM)
  }

  /** The entry records what the callback answered at that point. */
  predicate Answers(decide: Decider, before: seq<Entry>, e: Entry) {
    && (e.Approved? ==> decide(before, e.pid, e.call) == Allow)
    && (e.Refused? ==> decide(before, e.pid, e.call) == Deny)
  }

  predicate Mediated(log: seq<Entry>, decide: Decider) {
    log == [] ||
    var before, e := log[..|log| - 1], log[|log| - 1];
    Mediated(before, decide) && Follows(Last(before, e.pid), e) && Answers(decide, before, e)
  }

  lemma Snoc(log: seq<Entry>, e: Entry, decide: Decider)
    ensures (log + [e])[..|log|] == log
    ensures Last(log + [e], e.pid) == Some(e)
    ensures forall q :: q != e.pid ==> Last(log + [e], q) == Last(log, q)
    ensures Mediated(log + [e], decide) <==> Mediated(log, decide) && Follows(Last(log, e.pid), e) && Answers(decide, log, e)
  {
    assert (log + [e])[..|log|] == log;
  }

  /** The tracer's map agrees with the kernel about a living thread. */
  predicate Agrees(p: Pid, t: Thread, status: Option<ThreadStatus>, last: Option<Entry>) {
    match t.phase
    case User =>
      && (last.None? || last.value.Returned?)
      && (status == Some(USERSPACE) || (status == None && t.run == Stopped(SIGSTOP, false)))
    case Entering(c) =>
      && (last.None? || last.value.Returned?)
      && status == Some(USERSPACE) && t.origRax == c.nr && t.rax == MINUS_ENOSYS
    case Executing(c, done) =>
      || (status == Some(KERNELSPACE_ALLOW) && t.origRax == c.nr
          && (if done then last == Some(Executed(p, c, t.rax)) && c.nr != NO_CALL
              else last == Some(Approved(p, c)) && t.rax == MINUS_ENOSYS))
      || (status == Some(KERNELSPACE_DENY) && t.origRax == NO_CALL && !done && last == Some(Refused(p, c)))
    case Leaving(c) =>
      || (status == Some(KERNELSPACE_ALLOW)
          && (last == Some(Executed(p, c, t.rax))
              || (last == Some(Approved(p, c)) && c.nr == NO_CALL && t.rax == MINUS_ENOSYS)))
      || (status == Some(KERNELSPACE_DENY) && last == Some(Refused(p, c)))
  }

  /** Syscall stops are exactly the stops at entry and exit, where a thread is never running. */
  predicate WellStopped(t: Thread) {
    && (t.run.Stopped? ==> (t.run.sig == SYSCALL_STOP <==> t.phase.Entering? || t.phase.Leaving?))
    && (t.run.Running? ==> !t.phase.Entering? && !t.phase.Leaving?)
    && (t.run.Stopped? && t.run.sig == SIGSTOP ==> t.phase.User?)
  }

  /** Between turns: dead, or consistent with the map and not held in a reported stop. */
  predicate Sound(p: Pid, t: Thread, status: Option<ThreadStatus>, last: Option<Entry>) {
    t.run.Dead? || (Agrees(p, t, status, last) && WellStopped(t) && !Held(t))
  }

  ghost predicate SoundExcept(k: KState, decide: Decider, status: map<Pid, ThreadStatus>, cur: Option<Pid>) {
    && k.threads.Keys <= k.born
    && Mediated(k.log, decide)
    && (forall p :: p !in k.born ==> Last(k.log, p) == None)
    && (forall p :: p in status ==> p in k.threads)
    && (forall p :: p in k.threads && Some(p) != cur ==> Sound(p, k.threads[p], Get(status, p), Last(k.log, p)))
  }

  /** The simulation invariant at the head of the loop. */
  ghost predicate Inv(s: Sys, decide: Decider) {
    && s.outcome.Tracing?
    && s.status != map[]
    && SoundExcept(s.k, decide, s.status, None)
  }

  /** The loop has ended without a failed lookup or assertion. */
  ghost predicate Ended(s: Sys, decide: Decider) {
    (s.outcome.Finished? || s.outcome.Aborted?) && Mediated(s.k.log, decide)
  }

  /** During p's turn, p either is still held as `t`, or has died. */
  predicate HeldOrDead(k: KState, p: Pid, t: Thread, last: Option<Entry>) {
    p in k.threads && Held(t) && (k.threads[p] == t || k.threads[p].run.Dead?) && Last(k.log, p) == last
  }

  /** The invariant during p's turn: p was held as `t` when the turn began. */
  ghost predicate During(k: KState, decide: Decider, status: map<Pid, ThreadStatus>, p: Pid, t: Thread, last: Option<Entry>) {
    SoundExcept(k, decide, status, Some(p)) && HeldOrDead(k, p, t, last)
  }

  /** A thread's own action keeps it in agreement with the map. */
  lemma MoveKeeps(p: Pid, t: Thread, a: Action, status: Option<ThreadStatus>, last: Option<Entry>)
    requires a.pid == p && Sound(p, t, status, last)
    ensures Sound(p, Move(t, a), status, if Trail(t, a) == [] then last else Some(Trail(t, a)[0]))
    ensures Trail(t, a) != [] ==> Follows(last, Trail(t, a)[0])
  {
  }

  lemma LastOfTrail(log: seq<Entry>, t: Thread, a: Action, decide: Decider)
    ensures Last(log + Trail(t, a), a.pid) == if Trail(t, a) == [] then Last(log, a.pid) else Some(Trail(t, a)[0])
    ensures forall q :: q != a.pid ==> Last(log + Trail(t, a), q) == Last(log, q)
    ensures Mediated(log, decide) && (Trail(t, a) != [] ==> Follows(Last(log, a.pid), Trail(t, a)[0])) ==>
              Mediated(log + Trail(t, a), decide)
  {
    if Trail(t, a) != [] {
      Snoc(log, Trail(t, a)[0], decide);
    } else {
      assert log + Trail(t, a) == log;
    }
  }

  /** The thread that acts is not the one whose turn it is, unless it has only died. */
  lemma HeldCannotAct(k: KState, a: Action, p: Pid, t: Thread, last: Option<Entry>)
    requires HeldOrDead(k, p, t, last) && a.pid == p
    ensures Trail(k.threads[p], a) == [] && (Move(k.threads[p], a) == k.threads[p] || Move(k.threads[p], a).run.Dead?)
    ensures !(a.Spawn? && CanSpawn(k.threads[p]))
  {
  }

  lemma LetKeepsOthers(k: KState, a: Action, decide: Decider, status: map<Pid, ThreadStatus>, cur: Option<Pid>)
    requires SoundExcept(k, decide, status, cur) && a.pid in k.threads
    requires Some(a.pid) == cur ==> Trail(k.threads[a.pid], a) == []
    ensures forall p :: p in Let(k, a).threads && Some(p) != cur ==>
              Sound(p, Let(k, a).threads[p], Get(status, p), Last(Let(k, a).log, p))
  {
    var own := k.threads[a.pid];
    var k' := Let(k, a);
    LastOfTrail(k.log, own, a, decide);
    if Some(a.pid) != cur {
      MoveKeeps(a.pid, own, a, Get(status, a.pid), Last(k.log, a.pid));
    }
    forall p | p in k'.threads && Some(p) != cur
      ensures Sound(p, k'.threads[p], Get(status, p), Last(k'.log, p))
    {
      if p in k.threads {
        assert Sound(p, k.threads[p], Get(status, p), Last(k.log, p));
      }
    }
  }

  lemma LetKeeps(k: KState, a: Action, decide: Decider, status: map<Pid, ThreadStatus>,
                 cur: Option<Pid>, t: Thread, last: Option<Entry>)
    requires SoundExcept(k, decide, status, cur)
    requires cur.Some? ==> HeldOrDead(k, cur.value, t, last)
    ensures SoundExcept(Let(k, a), decide, status, cur)
    ensures cur.Some? ==> HeldOrDead(Let(k, a), cur.value, t, last)
  {
    if a.pid in k.threads {
      var own := k.threads[a.pid];
      LastOfTrail(k.log, own, a, decide);
      if Some(a.pid) == cur {
        HeldCannotAct(k, a, a.pid, t, last);
      } else {
        MoveKeeps(a.pid, own, a, Get(status, a.pid), Last(k.log, a.pid));
      }
      LetKeepsOthers(k, a, decide, status, cur);
    }
  }

  lemma {:induction false} LetAllKeeps(k: KState, actions: seq<Action>, decide: Decider, status: map<Pid, ThreadStatus>,
                                       cur: Option<Pid>, t: Thread, last: Option<Entry>)
    requires SoundExcept(k, decide, status, cur)
    requires cur.Some? ==> HeldOrDead(k, cur.value, t, last)
    ensures SoundExcept(LetAll(k, actions), decide, status, cur)
    ensures cur.Some? ==> HeldOrDead(LetAll(k, actions), cur.value, t, last)
    decreases |actions|
  {
    if actions == [] {
    } else {
      LetKeeps(k, actions[0], decide, status, cur, t, last);
      LetAllKeeps(Let(k, actions[0]), actions[1..], decide, status, cur, t, last);
    }
  }

  /** The end of a turn: the invariant returns once p is resumed in agreement with the map, or is dead. */
  lemma ContinueKeeps(s: Sys, decide: Decider, p: Pid, gap: seq<Action>, t: Thread, last: Option<Entry>)
    requires s.outcome.Tracing? && s.status != map[]
    requires During(s.k, decide, s.status, p, t, last)
    requires WellStopped(t)
    requires
      if t.phase.Leaving?
      then Get(s.status, p) == Some(USERSPACE) && Follows(last, Returned(p, t.phase.call, t.rax))
      else Agrees(p, Released(t), Get(s.status, p), last)
    ensures Inv(Continue(s, p, gap), decide)
  {
    LetAllKeeps(s.k, gap, decide, s.status, Some(p), t, last);
    var k := LetAll(s.k, gap);
    if AtStop(k, p) {
      if t.phase.Leaving? {
        Snoc(k.log, Returned(p, t.phase.call, t.rax), decide);
      } else {
        assert k.log + ReleaseTrail(t, p) == k.log;
      }
    }
  }

  lemma GiveUpKeeps(s: Sys, decide: Decider, k: KState, rest: seq<Action>, p: Pid, t: Thread, last: Option<Entry>)
    requires s.outcome.Tracing? && s.status != map[]
    requires During(k, decide, s.status, p, t, last) && !AtStop(k, p)
    ensures Inv(GiveUp(s, k, p, rest), decide)
  {
    assert SoundExcept(Esrch(k, p), decide, s.status, None);
    LetAllKeeps(Esrch(k, p), rest, decide, s.status, None, t, last);
  }

  lemma RewriteKeeps(s: Sys, decide: Decider, p: Pid, g: Gaps, entry: bool, next: ThreadStatus, t: Thread, last: Option<Entry>)
    requires s.outcome.Tracing? && p in s.status
    requires During(s.k, decide, s.status, p, t, last)
    requires WellStopped(t)
    requires
      if entry then next == KERNELSPACE_DENY && t.phase.Entering? && last == Some(Refused(p, t.phase.call))
      else next == USERSPACE && t.phase.Leaving? && last == Some(Refused(p, t.phase.call))
    ensures Inv(Rewrite(s, p, g, entry, next), decide)
  {
    LetAllKeeps(s.k, g.getregs, decide, s.status, Some(p), t, last);
    var k1 := LetAll(s.k, g.getregs);
    if !AtStop(k1, p) {
      GiveUpKeeps(s, decide, k1, g.setregs + g.cont, p, t, last);
    } else {
      LetAllKeeps(k1, g.setregs, decide, s.status, Some(p), t, last);
      var k2 := LetAll(k1, g.setregs);
      if !AtStop(k2, p) {
        GiveUpKeeps(s, decide, k2, g.cont, p, t, last);
      } else {
        var k3 := if entry then SetRegs(k2, p, NO_CALL, t.rax) else SetRegs(k2, p, t.origRax, MINUS_EPERM);
        assert p in s.status[p := next];
        ContinueKeeps(s.(k := k3, status := s.status[p := next]), decide, p, g.cont, k3.threads[p], last);
      }
    }
  }

  lemma OnEntryKeeps(s: Sys, p: Pid, g: Gaps, decide: Decider, t: Thread, last: Option<Entry>)
    requires s.outcome.Tracing? && Get(s.status, p) == Some(USERSPACE)
    requires During(s.k, decide, s.status, p, t, last)
    requires WellStopped(t) && t.phase.Entering? && t.origRax == t.phase.call.nr && t.rax == MINUS_ENOSYS
    requires last.None? || last.value.Returned?
    ensures Ended(OnEntry(s, p, g, decide), decide) || Inv(OnEntry(s, p, g, decide), decide)
  {
    LetAllKeeps(s.k, g.info, decide, s.status, Some(p), t, last);
    var k := LetAll(s.k, g.info);
    var call := t.phase.call;
    if !AtStop(k, p) {
      GiveUpKeeps(s, decide, k, Late(g), p, t, last);
    } else {
      match decide(k.log, p, call)
      case Abort =>
      case Allow =>
        Snoc(k.log, Approved(p, call), decide);
        assert p in s.status[p := KERNELSPACE_ALLOW];
        ContinueKeeps(Allowing(s, k, p, call), decide, p, Late(g), t, Some(Approved(p, call)));
      case Deny =>
        Snoc(k.log, Refused(p, call), decide);
        RewriteKeeps(Denying(s, k, p, call), decide, p, g, true, KERNELSPACE_DENY, t, Some(Refused(p, call)));
    }
  }

  lemma OnStopKeeps(s: Sys, p: Pid, sig: nat, g: Gaps, decide: Decider, t: Thread, last: Option<Entry>)
    requires s.outcome.Tracing? && s.status != map[]
    requires During(s.k, decide, s.status, p, t, last)
    requires WellStopped(t) && t.run == Stopped(sig, true)
    requires Agrees(p, t.(run := Stopped(sig, false)), Get(s.status, p), last)
    ensures Ended(OnStop(s, p, sig, g, decide), decide) || Inv(OnStop(s, p, sig, g, decide), decide)
  {
    if sig == SIGSTOP {
      ContinueKeeps(if p in s.status then s else s.(status := s.status[p := USERSPACE]), decide, p, Everything(g), t, last);
    } else if sig == SYSCALL_STOP {
      match s.status[p]
      case USERSPACE =>
        OnEntryKeeps(s, p, g, decide, t, last);
      case KERNELSPACE_DENY =>
        LetAllKeeps(s.k, g.info, decide, s.status, Some(p), t, last);
        RewriteKeeps(s.(k := LetAll(s.k, g.info)), decide, p, g, false, USERSPACE, t, last);
      case KERNELSPACE_ALLOW =>
        ContinueKeeps(s.(status := s.status[p := USERSPACE]), decide, p, Everything(g), t, last);
    } else {
      ContinueKeeps(s, decide, p, Everything(g), t, last);
    }
  }

  /** One turn keeps the invariant or ends the loop; it never fails a lookup or an assertion. */
  lemma TakeKeeps(s: Sys, turn: Turn, decide: Decider)
    requires Inv(s, decide)
    ensures Inv(Take(s, turn, decide), decide) || Ended(Take(s, turn, decide), decide)
  {
    match turn
    case Env(a) =>
      LetKeeps(s.k, a, decide, s.status, None, NEWBORN, None);
    case Poll(p, g) =>
      match Pending(s.k, p)
      case None =>
        LetAllKeeps(s.k, Everything(g), decide, s.status, None, NEWBORN, None);
      case Some(Gone(e)) =>
        var k := Deliver(s.k, p);
        assert SoundExcept(k, decide, s.status - {p}, None);
        LetAllKeeps(k, Everything(g), decide, s.status - {p}, None, NEWBORN, None);
      case Some(Stop(sig)) =>
        var k := Deliver(s.k, p);
        OnStopKeeps(s.(k := k), p, sig, g, decide, k.threads[p], Last(k.log, p));
  }

  lemma {:induction false} PlayKeeps(s: Sys, turns: seq<Turn>, decide: Decider)
    requires Inv(s, decide) || Ended(s, decide)
    ensures Inv(Play(s, turns, decide), decide) || Ended(Play(s, turns, decide), decide)
    decreases |turns|
  {
    if turns == [] {
    } else {
      if Inv(s, decide) {
        TakeKeeps(s, turns[0], decide);
      }
      PlayKeeps(Take(s, turns[0], decide), turns[1..], decide);
    }
  }
}
