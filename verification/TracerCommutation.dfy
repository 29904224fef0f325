/**
  Adjacent turns of two threads commute: exchanging them changes neither what
  any thread is and has seen, nor the tracer's map, nor any of the accounts kept.
 */
module TracerCommutation {
  import opened Base
  import opened Kernel
  import opened TracerLoop
  import opened TracerSafety
  import opened TracerLifecycle
  import opened TracerIndependence
  import opened TracerBirth

  /** A turn in which only thread p acts. */
  ghost predicate OwnTurn(t: Turn, p: Pid) {
    match t
    case Env(a) => a.pid == p
    case Poll(q, g) => q == p && By(Everything(g), p)
  }

  lemma {:induction false} OwnFilter(actions: seq<Action>, p: Pid, r: Pid)
    requires By(actions, p)
    ensures Own(actions, r) == if p == r then actions else []
    decreases |actions|
  {
    if actions == [] {
    } else {
      assert forall a :: a in actions[1..] ==> a in actions;
      OwnFilter(actions[1..], p, r);
    }
  }

  lemma OwnTurnShare(t: Turn, p: Pid, r: Pid)
    requires OwnTurn(t, p)
    ensures Share(t, r) == if p == r then [t] else []
  {
    match t
    case Env(a) =>
    case Poll(_, g) =>
      ByParts(g, p);
      OwnFilter(Everything(g), p, r);
      OwnFilter(g.info, p, r);
      OwnFilter(g.getregs, p, r);
      OwnFilter(g.setregs, p, r);
      OwnFilter(g.cont, p, r);
  }

  predicate Exits(l: Local, t: Turn) {
    t.Poll? && l.thread.Some? && PendingOf(l.thread.value).Some? && PendingOf(l.thread.value).value.Gone?
  }

  /** The loop goes on after p's turn `t`, given p's view and the map's domain. */
  ghost predicate GoesOn(l: Local, keys: set<Pid>, t: Turn, p: Pid, decide: Decider) {
    LTake(l, p, t, decide).ok && !(Exits(l, t) && keys == {p})
  }

  function After(l: Local, keys: set<Pid>, t: Turn, p: Pid): set<Pid> {
    if Exits(l, t) then keys - {p} else keys
  }

  lemma StopDomain(s: Sys, p: Pid, sig: nat, g: Gaps, decide: Decider)
    requires s.outcome.Tracing? && p in s.status
    ensures OnStop(s, p, sig, g, decide).status.Keys == s.status.Keys
    ensures !OnStop(s, p, sig, g, decide).outcome.Finished?
  {
  }

  lemma OnlyKey(status: map<Pid, ThreadStatus>, p: Pid)
    requires p in status
    ensures (status - {p}).Keys == status.Keys - {p}
    ensures |status - {p}| == 0 <==> status.Keys == {p}
  {
  }

  /** When a turn ends the loop, and what it does to the map's domain. */
  lemma TakeDomain(s: Sys, t: Turn, p: Pid, decide: Decider, l: Local)
    requires Inv(s, decide) && Private(decide) && OwnTurn(t, p) && p in s.status
    requires l == View(s.k, s.status, p)
    ensures Take(s, t, decide).outcome.Tracing? <==> GoesOn(l, s.status.Keys, t, p, decide)
    ensures Take(s, t, decide).outcome.Tracing? ==> Take(s, t, decide).status.Keys == After(l, s.status.Keys, t, p)
  {
    if t.Poll? {
      OwnTurnShare(t, p, p);
      PollView(s, p, t.gaps, decide, p);
      match Pending(s.k, p)
      case None =>
      case Some(Gone(_)) =>
        OnlyKey(s.status, p);
      case Some(Stop(sig)) =>
        StopDomain(s.(k := Deliver(s.k, p)), p, sig, t.gaps, decide);
    }
  }

  lemma SwapDomains(keys: set<Pid>, l1: Local, t1: Turn, p: Pid, l2: Local, t2: Turn, q: Pid, decide: Decider)
    requires p != q && p in keys && q in keys
    requires GoesOn(l1, keys, t1, p, decide) && GoesOn(l2, After(l1, keys, t1, p), t2, q, decide)
    ensures GoesOn(l2, keys, t2, q, decide) && GoesOn(l1, After(l2, keys, t2, q), t1, p, decide)
    ensures After(l2, After(l1, keys, t1, p), t2, q) == After(l1, After(l2, keys, t2, q), t1, p) <= keys
  {
    assert keys != {p} && keys != {q};
    if Exits(l1, t1) && Exits(l2, t2) {
      assert keys - {q} == {p} ==> keys - {p} == {q};
    }
  }

  /** A turn of p alone changes nothing for q. */
  lemma OtherView(s: Sys, t: Turn, p: Pid, q: Pid, decide: Decider)
    requires Inv(s, decide) && Private(decide) && p != q && p in s.status && q in s.status && OwnTurn(t, p)
    requires Take(s, t, decide).outcome.Tracing?
    ensures Inv(Take(s, t, decide), decide)
    ensures q in Take(s, t, decide).status
    ensures View(Take(s, t, decide).k, Take(s, t, decide).status, q) == View(s.k, s.status, q)
  {
    TakeKeeps(s, t, decide);
    OwnTurnShare(t, p, q);
    TakeView(s, t, decide, q);
  }

  /** The second order keeps the loop running too, with the same domain. */
  lemma SwapKeepsTracing(s: Sys, t1: Turn, p: Pid, t2: Turn, q: Pid, decide: Decider)
    requires Inv(s, decide) && Private(decide) && p != q && p in s.status && q in s.status
    requires OwnTurn(t1, p) && OwnTurn(t2, q)
    requires Take(Take(s, t1, decide), t2, decide).outcome.Tracing?
    ensures var s12, s21 := Take(Take(s, t1, decide), t2, decide), Take(Take(s, t2, decide), t1, decide);
            s21.outcome.Tracing? && s12.status.Keys == s21.status.Keys <= s.status.Keys
  {
    var s1, s2 := Take(s, t1, decide), Take(s, t2, decide);
    var l1, l2 := View(s.k, s.status, p), View(s.k, s.status, q);
    TracingThroughout(s1, [t2], decide);
    OtherView(s, t1, p, q, decide);
    TakeDomain(s, t1, p, decide, l1);
    TakeDomain(s1, t2, q, decide, l2);
    SwapDomains(s.status.Keys, l1, t1, p, l2, t2, q, decide);
    TakeDomain(s, t2, q, decide, l2);
    OtherView(s, t2, q, p, decide);
    TakeDomain(s2, t1, p, decide, l1);
  }

  lemma ProjectTwo(t1: Turn, t2: Turn, r: Pid)
    ensures Project([t1, t2], r) == Share(t1, r) + Share(t2, r)
  {
    hide Share;
    assert [t1, t2][1..] == [t2] && [t2][1..] == [];
    assert Project([t2], r) == Share(t2, r) + [];
  }

  lemma ProjectPair(t1: Turn, p: Pid, t2: Turn, q: Pid, r: Pid)
    requires p != q && OwnTurn(t1, p) && OwnTurn(t2, q)
    ensures Project([t1, t2], r) == Project([t2, t1], r)
  {
    OwnTurnShare(t1, p, r);
    OwnTurnShare(t2, q, r);
    ProjectTwo(t1, t2, r);
    ProjectTwo(t2, t1, r);
    hide Project, Share, OwnTurn;
    assert [] + Share(t1, r) == Share(t1, r) + [] && [] + Share(t2, r) == Share(t2, r) + [];
  }

  lemma PlayTwo(s: Sys, t1: Turn, t2: Turn, decide: Decider)
    ensures Play(s, [t1, t2], decide) == Take(Take(s, t1, decide), t2, decide)
  {
    assert [t1, t2][1..] == [t2];
    assert Play(Take(s, t1, decide), [t2], decide) == Play(Take(Take(s, t1, decide), t2, decide), [], decide);
  }

  /** To any thread, the two orders look the same. */
  lemma PairViews(s: Sys, t1: Turn, p: Pid, t2: Turn, q: Pid, decide: Decider, r: Pid)
    requires p != q && OwnTurn(t1, p) && OwnTurn(t2, q) && r in s.k.born && Private(decide)
    requires Play(s, [t1, t2], decide).outcome.Tracing? && Play(s, [t2, t1], decide).outcome.Tracing?
    ensures var s1, s2 := Play(s, [t1, t2], decide), Play(s, [t2, t1], decide);
            View(s1.k, s1.status, r) == View(s2.k, s2.status, r)
  {
    ProjectPair(t1, p, t2, q, r);
    InterleavingDoesNotMatter(s, [t1, t2], [t2, t1], decide, r);
  }

  // ---- what a turn adds to the accounts, from its thread's view alone -------

  /** The threads a thread tries to create by these actions. */
  function KidsOf(l: Local, actions: seq<Action>): set<Pid>
    decreases |actions|
  {
    if actions == [] || l.thread.None? then {}
    else
      (if actions[0].Spawn? && CanSpawn(l.thread.value) then {actions[0].child} else {})
      + KidsOf(LLet(l, actions[0]), actions[1..])
  }

  lemma {:induction false} LetAllBorn(k: KState, actions: seq<Action>, status: map<Pid, ThreadStatus>, p: Pid)
    requires p in k.born && By(actions, p)
    ensures LetAll(k, actions).born == k.born + KidsOf(View(k, status, p), actions)
    decreases |actions|
  {
    if actions == [] {
    } else {
      assert actions[0] in actions && forall a :: a in actions[1..] ==> a in actions;
      LetView(k, actions[0], status, p);
      LetAllBorn(Let(k, actions[0]), actions[1..], status, p);
      if p !in k.threads {
        assert Let(k, actions[0]) == k;
      }
    }
  }

  /** p waits for the tracer with a stop. */
  predicate AtPendingStop(l: Local) {
    l.thread.Some? && PendingOf(l.thread.value).Some? && PendingOf(l.thread.value).value.Stop?
  }

  function Kids(l: Local, t: Turn): set<Pid> {
    match t
    case Env(a) => KidsOf(l, [a])
    case Poll(_, g) =>
      if l.thread.Some? && PendingOf(l.thread.value).None? then KidsOf(l, Everything(g)) else {}
  }

  function Resumes(l: Local, l': Local, t: Turn, p: Pid): multiset<Pid> {
    if t.Poll? && AtPendingStop(l) && l'.thread.Some? && l'.thread.value.run.Running? then multiset{p} else multiset{}
  }

  function Losses(l: Local, l': Local, t: Turn, p: Pid): set<Pid> {
    if t.Poll? && AtPendingStop(l) && l'.thread.Some? && l'.thread.value.run.Dead? then {p} else {}
  }

  function Reported(l: Local, t: Turn, p: Pid): seq<Report> {
    if t.Poll? && l.thread.Some? && PendingOf(l.thread.value).Some?
    then [Report(p, PendingOf(l.thread.value).value)] else []
  }

  /** From s to s', a turn of p added this to the kernel's accounts. */
  ghost predicate Adds(k: KState, k': KState, l: Local, l': Local, t: Turn, p: Pid) {
    && k'.born == k.born + Kids(l, t)
    && k'.resumed == k.resumed + Resumes(l, l', t, p)
    && k'.lost == k.lost + Losses(l, l', t, p)
    && k'.reports == k.reports + Reported(l, t, p)
  }

  lemma QuietAdds(k: KState, actions: seq<Action>, status: map<Pid, ThreadStatus>, p: Pid)
    requires p in k.born && By(actions, p)
    ensures var k' := LetAll(k, actions);
            && k'.born == k.born + KidsOf(View(k, status, p), actions)
            && k'.resumed == k.resumed && k'.lost == k.lost && k'.reports == k.reports
  {
    LetAllBorn(k, actions, status, p);
    LetAllQuiet(k, actions, p);
  }

  lemma StopAdds(s: Sys, p: Pid, sig: nat, g: Gaps, decide: Decider)
    requires Inv(s, decide) && p in s.k.threads && By(Everything(g), p) && Pending(s.k, p) == Some(Stop(sig))
    requires OnStop(s.(k := Deliver(s.k, p)), p, sig, g, decide).outcome.Tracing?
    ensures var s' := OnStop(s.(k := Deliver(s.k, p)), p, sig, g, decide);
            Adds(s.k, s'.k, View(s.k, s.status, p), View(s'.k, s'.status, p), Poll(p, g), p)
  {
    OnStopSpends(s.(k := Deliver(s.k, p)), p, sig, g, decide);
  }

  lemma ExitAdds(k: KState, status: map<Pid, ThreadStatus>, p: Pid, e: Exit, g: Gaps, l': Local)
    requires p in k.born && By(Everything(g), p) && Pending(k, p) == Some(Gone(e))
    ensures Adds(k, LetAll(Deliver(k, p), Everything(g)), View(k, status, p), l', Poll(p, g), p)
  {
    QuietAdds(Deliver(k, p), Everything(g), status, p);
  }

  lemma OnExitKernel(s: Sys, p: Pid, e: Exit, g: Gaps)
    ensures OnExit(s, p, e, g).k == LetAll(s.k, Everything(g))
  {
    hide LetAll;
  }

  lemma IdleAdds(s: Sys, p: Pid, g: Gaps)
    requires p in s.k.threads && p in s.k.born && By(Everything(g), p) && Pending(s.k, p).None?
    ensures var k' := LetAll(s.k, Everything(g));
            Adds(s.k, k', View(s.k, s.status, p), View(k', s.status, p), Poll(p, g), p)
  {
    QuietAdds(s.k, Everything(g), s.status, p);
  }

  lemma EnvAdds(s: Sys, a: Action, p: Pid)
    requires p in s.k.born && a.pid == p
    ensures var k' := Let(s.k, a);
            Adds(s.k, k', View(s.k, s.status, p), View(k', s.status, p), Env(a), p)
  {
    assert LetAll(s.k, [a]) == Let(s.k, a);
    QuietAdds(s.k, [a], s.status, p);
  }

  lemma TakeAdds(s: Sys, t: Turn, p: Pid, decide: Decider)
    requires Inv(s, decide) && OwnTurn(t, p) && p in s.status
    requires Take(s, t, decide).outcome.Tracing?
    ensures var s' := Take(s, t, decide);
            Adds(s.k, s'.k, View(s.k, s.status, p), View(s'.k, s'.status, p), t, p)
  {
    hide Adds, View, OnStop, OnExit, LetAll;
    match t
    case Env(a) =>
      EnvAdds(s, a, p);
    case Poll(_, g) =>
      match Pending(s.k, p)
      case None =>
        IdleAdds(s, p, g);
      case Some(Gone(e)) =>
        var s' := Take(s, t, decide);
        OnExitKernel(s.(k := Deliver(s.k, p)), p, e, g);
        ExitAdds(s.k, s.status, p, e, g, View(s'.k, s'.status, p));
      case Some(Stop(sig)) =>
        StopAdds(s, p, sig, g, decide);
  }

  /** p's view after its own turn depends on its view before it only. */
  lemma OwnView(s: Sys, t: Turn, p: Pid, decide: Decider)
    requires Inv(s, decide) && Private(decide) && OwnTurn(t, p) && p in s.status
    requires Take(s, t, decide).outcome.Tracing?
    ensures var s' := Take(s, t, decide);
            View(s'.k, s'.status, p) == LPlay(View(s.k, s.status, p), p, [t], decide)
  {
    OwnTurnShare(t, p, p);
    TakeView(s, t, decide, p);
  }

  /** Reports are compared without their order. */
  ghost predicate SameAccounts(k1: KState, k2: KState) {
    && k1.born == k2.born
    && k1.resumed == k2.resumed
    && k1.lost == k2.lost
    && multiset(k1.reports) == multiset(k2.reports)
  }

  /** The accounts after the pair do not depend on the order. */
  lemma SwapAdds(s: Sys, t1: Turn, p: Pid, t2: Turn, q: Pid, decide: Decider)
    requires Inv(s, decide) && Private(decide) && p != q && p in s.status && q in s.status
    requires OwnTurn(t1, p) && OwnTurn(t2, q)
    requires Take(s, t1, decide).outcome.Tracing? && Take(s, t2, decide).outcome.Tracing?
    requires Take(Take(s, t1, decide), t2, decide).outcome.Tracing?
    requires Take(Take(s, t2, decide), t1, decide).outcome.Tracing?
    ensures SameAccounts(Take(Take(s, t1, decide), t2, decide).k, Take(Take(s, t2, decide), t1, decide).k)
  {
    var s1, s2 := Take(s, t1, decide), Take(s, t2, decide);
    hide Take, Inv, Private, OwnTurn, View, LPlay, Kids, Resumes, Losses, Reported;
    OtherView(s, t1, p, q, decide);
    OtherView(s, t2, q, p, decide);
    OwnView(s, t1, p, decide);
    OwnView(s2, t1, p, decide);
    OwnView(s, t2, q, decide);
    OwnView(s1, t2, q, decide);
    TakeAdds(s, t1, p, decide);
    TakeAdds(s1, t2, q, decide);
    TakeAdds(s, t2, q, decide);
    TakeAdds(s2, t1, p, decide);
  }

  // ---- the two orders --------------------------------------------------------

  lemma OwnActions(t: Turn, p: Pid, r: Pid)
    requires OwnTurn(t, p) && r != p
    ensures Own(ActionsOf(t), r) == []
  {
    match t
    case Env(a) =>
    case Poll(_, g) => OwnFilter(Everything(g), p, r);
  }

  /** A thread born inside the pair is newborn afterwards. */
  lemma PairBorn(s: Sys, t1: Turn, p: Pid, t2: Turn, q: Pid, decide: Decider, r: Pid)
    requires Inv(s, decide) && Private(decide) && p in s.status && q in s.status && p != q
    requires OwnTurn(t1, p) && OwnTurn(t2, q) && r !in s.k.born
    requires Play(s, [t1, t2], decide).outcome.Tracing?
    ensures var s' := Play(s, [t1, t2], decide);
            View(s'.k, s'.status, r) == if r in s'.k.born then BORN else Local(None, None, [])
  {
    var turns, s' := [t1, t2], Play(s, [t1, t2], decide);
    assert turns[1..] == [t2] && turns[2..] == [] && [t2][1..] == [];
    OwnTurnShare(t1, p, r);
    OwnTurnShare(t2, q, r);
    PlayKeeps(s, turns, decide);
    if r in s'.k.born {
      var i, x := BornIndependence(s, turns, decide, r);
      OwnActions(turns[i], if i == 0 then p else q, r);
      assert Envs(x) + Project(turns[i + 1..], r) == [];
    } else {
      InvUnborn(s', decide, r);
    }
  }

  lemma SameMap<V>(m1: map<Pid, V>, m2: map<Pid, V>)
    requires forall r :: Get(m1, r) == Get(m2, r)
    ensures m1 == m2
  {
    forall r ensures r in m1 <==> r in m2 {
      assert Get(m1, r) == Get(m2, r);
    }
    forall r | r in m1 ensures m1[r] == m2[r] {
      assert Get(m1, r) == Get(m2, r);
    }
  }

  lemma SameState(s1: Sys, s2: Sys)
    requires forall r :: View(s1.k, s1.status, r) == View(s2.k, s2.status, r)
    ensures s1.status == s2.status && s1.k.threads == s2.k.threads
    ensures forall r :: Of(s1.k.log, r) == Of(s2.k.log, r)
  {
    forall r
      ensures Get(s1.status, r) == Get(s2.status, r) && Get(s1.k.threads, r) == Get(s2.k.threads, r)
      ensures Of(s1.k.log, r) == Of(s2.k.log, r)
    {
      assert View(s1.k, s1.status, r) == View(s2.k, s2.status, r);
    }
    SameMap(s1.status, s2.status);
    SameMap(s1.k.threads, s2.k.threads);
  }

  /** Adjacent turns of two registered threads commute: unless the pair empties the map, both orders keep
      the loop running and lead to the same map, the same threads (those created in the pair included), each
      with the same history, and the same accounts of resumes, losses and reports. Only how the histories of
      different threads interleave, and the parser's leftover target, can differ. */
  lemma AdjacentTurnsCommute(s: Sys, t1: Turn, p: Pid, t2: Turn, q: Pid, decide: Decider)
    requires Inv(s, decide) && Private(decide) && p != q && p in s.status && q in s.status
    requires OwnTurn(t1, p) && OwnTurn(t2, q)
    requires Play(s, [t1, t2], decide).outcome.Tracing?
    ensures var s1, s2 := Play(s, [t1, t2], decide), Play(s, [t2, t1], decide);
            && s2.outcome.Tracing?
            && s1.status == s2.status
            && s1.k.threads == s2.k.threads
            && (forall r :: Of(s1.k.log, r) == Of(s2.k.log, r))
            && SameAccounts(s1.k, s2.k)
  {
    PlayTwo(s, t1, t2, decide);
    PlayTwo(s, t2, t1, decide);
    SwapKeepsTracing(s, t1, p, t2, q, decide);
    TracingThroughout(Take(s, t1, decide), [t2], decide);
    TracingThroughout(Take(s, t2, decide), [t1], decide);
    SwapAdds(s, t1, p, t2, q, decide);
    var s1, s2 := Play(s, [t1, t2], decide), Play(s, [t2, t1], decide);
    forall r ensures View(s1.k, s1.status, r) == View(s2.k, s2.status, r) {
      if r in s.k.born {
        PairViews(s, t1, p, t2, q, decide, r);
      } else {
        PairBorn(s, t1, p, t2, q, decide, r);
        PairBorn(s, t2, q, t1, p, decide, r);
      }
    }
    SameState(s1, s2);
  }
}
