/**
  Independence for threads that are created during the run: from its birth on,
  a thread is the one-thread automaton on its own share of the schedule.
 */
module TracerBirth {
  import opened Base
  import opened Kernel
  import opened TracerLoop
  import opened TracerSafety
  import opened TracerTheorems
  import opened TracerIndependence

  /** A thread that was just created: in its initial SIGSTOP, unknown to the tracer, without history. */
  const BORN: Local := Local(Some(NEWBORN), None, [])

  ghost predicate Unborn(k: KState, status: map<Pid, ThreadStatus>, p: Pid) {
    p !in k.born && View(k, status, p) == Local(None, None, [])
  }

  /** p has not been created, or was created and has since performed the last of its actions `acts`. */
  ghost predicate Hatched(k: KState, status: map<Pid, ThreadStatus>, p: Pid, acts: seq<Action>) {
    || Unborn(k, status, p)
    || (p in k.born && exists j :: 0 <= j <= |acts| && View(k, status, p) == LLetAll(BORN, acts[j..]))
  }

  lemma {:induction false} NothingOf(log: seq<Entry>, p: Pid)
    requires Last(log, p).None?
    ensures Of(log, p) == []
    decreases |log|
  {
    if log == [] {
    } else {
      NothingOf(log[..|log| - 1], p);
    }
  }

  lemma InvUnborn(s: Sys, decide: Decider, p: Pid)
    requires Inv(s, decide) && p !in s.k.born
    ensures Unborn(s.k, s.status, p)
  {
    NothingOf(s.k.log, p);
  }

  /** One action before p is born: p is created by it, or remains unborn. */
  lemma LetHatches(k: KState, a: Action, status: map<Pid, ThreadStatus>, p: Pid)
    requires Unborn(k, status, p)
    ensures if p in Let(k, a).born then View(Let(k, a), status, p) == BORN && a.pid != p
            else Unborn(Let(k, a), status, p)
  {
    if a.pid in k.threads {
      OfTrail(k.log, k.threads[a.pid], a, p);
      hide Of, Trail, Move;
    }
  }

  lemma HatchedLater(k: KState, status: map<Pid, ThreadStatus>, p: Pid, acts: seq<Action>, earlier: seq<Action>)
    requires Hatched(k, status, p, acts)
    ensures Hatched(k, status, p, earlier + acts)
  {
    if p in k.born {
      var j :| 0 <= j <= |acts| && View(k, status, p) == LLetAll(BORN, acts[j..]);
      assert (earlier + acts)[|earlier| + j..] == acts[j..];
    }
  }

  lemma {:induction false} LetAllHatches(k: KState, actions: seq<Action>, status: map<Pid, ThreadStatus>, p: Pid)
    requires Unborn(k, status, p)
    ensures Hatched(LetAll(k, actions), status, p, Own(actions, p))
    decreases |actions|
  {
    hide Let, View, LLetAll;
    if actions == [] {
    } else {
      var k', rest := Let(k, actions[0]), Own(actions[1..], p);
      LetHatches(k, actions[0], status, p);
      if p in k'.born {
        LetAllView(k', actions[1..], status, p);
        assert rest[0..] == rest;
      } else {
        LetAllHatches(k', actions[1..], status, p);
        HatchedLater(LetAll(k, actions), status, p, rest, if actions[0].pid == p then [actions[0]] else []);
        assert [] + rest == rest;
      }
    }
  }

  /** More actions of all threads. */
  lemma HatchedOn(k: KState, actions: seq<Action>, status: map<Pid, ThreadStatus>, p: Pid, acts: seq<Action>)
    requires Hatched(k, status, p, acts)
    ensures Hatched(LetAll(k, actions), status, p, acts + Own(actions, p))
  {
    hide LetAll, Own, LLetAll, View;
    var own := Own(actions, p);
    if p in k.born {
      var j :| 0 <= j <= |acts| && View(k, status, p) == LLetAll(BORN, acts[j..]);
      LetAllView(k, actions, status, p);
      LLetAllConcat(BORN, acts[j..], own);
      assert (acts + own)[j..] == acts[j..] + own;
    } else {
      LetAllHatches(k, actions, status, p);
      HatchedLater(LetAll(k, actions), status, p, own, acts);
    }
  }

  /** What the tracer does about another thread does not matter to p. */
  lemma HatchedSame(k: KState, status: map<Pid, ThreadStatus>, k': KState, status': map<Pid, ThreadStatus>,
                    p: Pid, acts: seq<Action>)
    requires Hatched(k, status, p, acts)
    requires k'.born == k.born && View(k', status', p) == View(k, status, p)
    ensures Hatched(k', status', p, acts)
  {
  }

  lemma ContinueHatches(s: Sys, q: Pid, gap: seq<Action>, p: Pid, acts: seq<Action>)
    requires p != q && Hatched(s.k, s.status, p, acts)
    ensures Hatched(Continue(s, q, gap).k, s.status, p, acts + Own(gap, p))
  {
    HatchedOn(s.k, gap, s.status, p, acts);
    var k := LetAll(s.k, gap);
    if AtStop(k, q) {
      var trail := ReleaseTrail(k.threads[q], q);
      if trail == [] {
        assert k.log + trail == k.log;
      } else {
        OfSnoc(k.log, trail[0], p);
      }
    }
    hide Hatched, LetAll;
    HatchedSame(k, s.status, Continue(s, q, gap).k, s.status, p, acts + Own(gap, p));
  }

  lemma GiveUpHatches(s: Sys, k: KState, q: Pid, rest: seq<Action>, p: Pid, acts: seq<Action>)
    requires p != q && Hatched(k, s.status, p, acts)
    ensures Hatched(GiveUp(s, k, q, rest).k, s.status, p, acts + Own(rest, p))
  {
    HatchedOn(Esrch(k, q), rest, s.status, p, acts);
  }

  lemma LateOwn(g: Gaps, p: Pid)
    ensures Own(Late(g), p) == Late(OwnGaps(g, p))
    ensures Own(g.setregs + g.cont, p) == Own(g.setregs, p) + Own(g.cont, p)
    ensures Own(Everything(g), p) == Own(g.info, p) + Own(Late(g), p)
  {
    OwnConcat(g.getregs + g.setregs, g.cont, p);
    OwnConcat(g.getregs, g.setregs, p);
    OwnConcat(g.setregs, g.cont, p);
    OwnConcat(g.info, Late(g), p);
  }

  lemma RewriteHatches(s: Sys, q: Pid, g: Gaps, entry: bool, next: ThreadStatus, p: Pid, acts: seq<Action>)
    requires p != q && Hatched(s.k, s.status, p, acts)
    ensures Hatched(Rewrite(s, q, g, entry, next).k, Rewrite(s, q, g, entry, next).status, p, acts + Own(Late(g), p))
  {
    hide Hatched, LetAll, Own;
    var o := OwnGaps(g, p);
    LateOwn(g, p);
    HatchedOn(s.k, g.getregs, s.status, p, acts);
    var k1 := LetAll(s.k, g.getregs);
    if !AtStop(k1, q) {
      GiveUpHatches(s, k1, q, g.setregs + g.cont, p, acts + o.getregs);
      assert acts + o.getregs + (o.setregs + o.cont) == acts + Late(o);
    } else {
      HatchedOn(k1, g.setregs, s.status, p, acts + o.getregs);
      var k2 := LetAll(k1, g.setregs);
      if !AtStop(k2, q) {
        GiveUpHatches(s, k2, q, g.cont, p, acts + o.getregs + o.setregs);
      } else {
        var t := k1.threads[q];
        var k3 := if entry then SetRegs(k2, q, NO_CALL, t.rax) else SetRegs(k2, q, t.origRax, MINUS_EPERM);
        HatchedSame(k2, s.status, k3, s.status[q := next], p, acts + o.getregs + o.setregs);
        ContinueHatches(s.(k := k3, status := s.status[q := next]), q, g.cont, p, acts + o.getregs + o.setregs);
      }
      assert acts + o.getregs + o.setregs + o.cont == acts + Late(o);
    }
  }

  lemma ContinueStatus(s: Sys, q: Pid, gap: seq<Action>)
    ensures Continue(s, q, gap).status == s.status
  {
  }

  lemma OnEntryHatches(s: Sys, q: Pid, g: Gaps, decide: Decider, p: Pid)
    requires p != q && Unborn(s.k, s.status, p)
    requires s.outcome.Tracing? && OnEntry(s, q, g, decide).outcome.Tracing?
    ensures Hatched(OnEntry(s, q, g, decide).k, OnEntry(s, q, g, decide).status, p, Own(Everything(g), p))
  {
    LetAllHatches(s.k, g.info, s.status, p);
    LateOwn(g, p);
    hide Hatched, LetAll, Own, Continue, Rewrite, GiveUp;
    var k, acts := LetAll(s.k, g.info), Own(g.info, p);
    if !AtStop(k, q) {
      GiveUpHatches(s, k, q, Late(g), p, acts);
    } else {
      var call := k.threads[q].phase.call.(nr := k.threads[q].origRax);
      match decide(k.log, q, call)
      case Allow =>
        OfSnoc(k.log, Approved(q, call), p);
        var s' := Allowing(s, k, q, call);
        HatchedSame(k, s.status, s'.k, s'.status, p, acts);
        ContinueHatches(s', q, Late(g), p, acts);
        ContinueStatus(s', q, Late(g));
      case Deny =>
        OfSnoc(k.log, Refused(q, call), p);
        var s' := Denying(s, k, q, call);
        HatchedSame(k, s.status, s'.k, s'.status, p, acts);
        RewriteHatches(s', q, g, true, KERNELSPACE_DENY, p, acts);
    }
  }

  lemma OnStopHatches(s: Sys, q: Pid, sig: nat, g: Gaps, decide: Decider, p: Pid)
    requires p != q && Unborn(s.k, s.status, p)
    requires s.outcome.Tracing? && OnStop(s, q, sig, g, decide).outcome.Tracing?
    ensures Hatched(OnStop(s, q, sig, g, decide).k, OnStop(s, q, sig, g, decide).status, p, Own(Everything(g), p))
  {
    var own := Own(Everything(g), p);
    assert [] + own == own;
    if sig == SIGSTOP {
      ContinueHatches(if q in s.status then s else s.(status := s.status[q := USERSPACE]), q, Everything(g), p, []);
    } else if sig != SYSCALL_STOP {
      ContinueHatches(s, q, Everything(g), p, []);
    } else {
      match s.status[q]
      case USERSPACE =>
        OnEntryHatches(s, q, g, decide, p);
      case KERNELSPACE_DENY =>
        LetAllHatches(s.k, g.info, s.status, p);
        LateOwn(g, p);
        RewriteHatches(s.(k := LetAll(s.k, g.info)), q, g, false, USERSPACE, p, Own(g.info, p));
      case KERNELSPACE_ALLOW =>
        ContinueHatches(s.(status := s.status[q := USERSPACE]), q, Everything(g), p, []);
    }
  }

  /** What threads do by themselves in a turn, in order. */
  function ActionsOf(t: Turn): seq<Action> {
    match t
    case Env(a) => [a]
    case Poll(_, g) => Everything(g)
  }

  /** A turn in which p may be created. */
  lemma TakeHatches(s: Sys, t: Turn, decide: Decider, p: Pid)
    requires Inv(s, decide) && p !in s.k.born && Take(s, t, decide).outcome.Tracing?
    ensures Hatched(Take(s, t, decide).k, Take(s, t, decide).status, p, Own(ActionsOf(t), p))
  {
    InvUnborn(s, decide, p);
    match t
    case Env(a) =>
      LetAllHatches(s.k, [a], s.status, p);
      assert LetAll(s.k, [a]) == Let(s.k, a);
    case Poll(q, g) =>
      match Pending(s.k, q)
      case None =>
        LetAllHatches(s.k, Everything(g), s.status, p);
      case Some(Gone(_)) =>
        LetAllHatches(Deliver(s.k, q), Everything(g), s.status - {q}, p);
      case Some(Stop(sig)) =>
        OnStopHatches(s.(k := Deliver(s.k, q)), q, sig, g, decide, p);
  }

  /** A thread that is born during turn i of a run performs the last |x| of its own actions in that turn;
      from then on it is the one-thread automaton, started as a newborn thread, on its share of the schedule. */
  lemma {:induction false} BornIndependence(s: Sys, turns: seq<Turn>, decide: Decider, p: Pid)
    returns (i: nat, x: seq<Action>)
    requires Inv(s, decide) && Private(decide) && p !in s.k.born
    requires Play(s, turns, decide).outcome.Tracing? && p in Play(s, turns, decide).k.born
    ensures i < |turns| && p !in Play(s, turns[..i], decide).k.born
    ensures exists j :: 0 <= j <= |Own(ActionsOf(turns[i]), p)| && x == Own(ActionsOf(turns[i]), p)[j..]
    ensures Shows(Play(s, turns, decide), p, LPlay(BORN, p, Envs(x) + Project(turns[i + 1..], p), decide))
    decreases |turns|
  {
    hide Take, Own, LLetAll, View, Inv, Private, Project, Envs;
    var s', rest := Take(s, turns[0], decide), turns[1..];
    TracingThroughout(s', rest, decide);
    TakeKeeps(s, turns[0], decide);
    TakeHatches(s, turns[0], decide, p);
    if p in s'.k.born {
      var own := Own(ActionsOf(turns[0]), p);
      var j :| 0 <= j <= |own| && View(s'.k, s'.status, p) == LLetAll(BORN, own[j..]);
      i, x := 0, own[j..];
      Independence(s', rest, decide, p);
      EnvsPlay(BORN, x, p, decide);
      LPlayConcat(BORN, Envs(x), Project(rest, p), p, decide);
      assert turns[..0] == [];
    } else {
      i, x := BornIndependence(s', rest, decide, p);
      i := i + 1;
      assert turns[..i][1..] == rest[..i - 1] && turns[i + 1..] == rest[i..];
    }
  }

  /** The whole run from its start, for any thread: the first one from the beginning, every other from its birth. */
  lemma EveryThreadIndependent(root: Pid, turns: seq<Turn>, decide: Decider, p: Pid) returns (i: nat, x: seq<Action>)
    requires Private(decide)
    requires Play(Start(root), turns, decide).outcome.Tracing? && p in Play(Start(root), turns, decide).k.born
    ensures p == root ==> Shows(Play(Start(root), turns, decide), p,
                                LPlay(Local(Some(Thread(User, Running, 0, 0)), Some(USERSPACE), []), p,
                                      Project(turns, p), decide))
    ensures p != root ==>
              && i < |turns| && p !in Play(Start(root), turns[..i], decide).k.born
              && (exists j :: 0 <= j <= |Own(ActionsOf(turns[i]), p)| && x == Own(ActionsOf(turns[i]), p)[j..])
              && Shows(Play(Start(root), turns, decide), p,
                       LPlay(BORN, p, Envs(x) + Project(turns[i + 1..], p), decide))
  {
    StartHolds(root, decide);
    if p == root {
      i, x := 0, [];
      Independence(Start(root), turns, decide, p);
    } else {
      i, x := BornIndependence(Start(root), turns, decide, p);
    }
  }
}
