/**
  The parts together: the tracer's callback renders the call from the memory of
  the thread it is about, and asks over one pinentry conversation for the whole
  run. What executes was allowed by the rules, or by the user's own answer to a
  question that showed just this call.
 */
module Sandbox {
  import opened Base
  import opened Kernel
  import opened TracerLoop
  import opened TracerSafety
  import opened TracerTheorems
  import opened RemoteMemory
  import opened Escapes
  import opened SyscallDefs
  import opened Parser
  import opened ParserTheorems
  import opened Pinentry
  import opened PinentryReplies
  import opened PinentrySession
  import opened Config
  import opened Dialogs
  import opened Decision
  import opened DialogSafety

  /** One installation at work. `memories` is the memory of all processes at the moment of a decision; every
      decision is made after a different history, so this covers any change of memory during the run.
      `start` is the conversation when tracing starts. */
  datatype Setting = Setting(
    sigs: map<U64, Sig>,
    settings: Settings,
    hmac: Hmac,
    matcher: Matcher,
    memories: seq<Entry> -> map<Pid, Mem>,
    start: Conn)

  function ActionFor(w: Setting, line: string): Config.Action {
    ActionOf(w.settings.rules.groups, w.settings.rules.default, line, w.matcher)
  }

  /** The callback about call c of p, on the conversation as it is. */
  function Consult(w: Setting, log: seq<Entry>, conn: Conn, p: Pid, c: Call): (Conn, Verdict) {
    match Render(w.sigs, c, w.memories(log), p)
    case None => (conn, Abort)
    case Some(line) =>
      var (conn', r) := Callback(w.settings, w.hmac, w.matcher, line, conn);
      (conn', match r case Thrown(_) => Abort case Ok(granted) => if granted then Allow else Deny)
  }

  /** The conversation after all decisions in a history. */
  function ConnAt(w: Setting, log: seq<Entry>): Conn
    decreases |log|
  {
    if log == [] then w.start
    else
      var before, e := log[..|log| - 1], log[|log| - 1];
      if e.Approved? || e.Refused? then Consult(w, before, ConnAt(w, before), e.pid, e.call).0 else ConnAt(w, before)
  }

  /** The tracer's callback in this setting. */
  function Consulting(w: Setting): Decider {
    (log: seq<Entry>, p: Pid, c: Call) => Consult(w, log, ConnAt(w, log), p, c).1
  }

  /** Printable names, a server that replies once to each line, and a conversation in lockstep. */
  ghost predicate Ready(w: Setting, replies: seq<seq<string>>) {
    && (forall n :: n in w.sigs ==> PrintableText(w.sigs[n].name))
    && AreReplies(replies)
    && Steady(w.start, replies)
  }

  // ---- the conversation along a run ---------------------------------------------------

  lemma ConsultSteady(w: Setting, replies: seq<seq<string>>, log: seq<Entry>, conn: Conn, p: Pid, c: Call)
    requires Ready(w, replies) && Steady(conn, replies) && !Consult(w, log, conn, p, c).1.Abort?
    ensures Steady(Consult(w, log, conn, p, c).0, replies)
  {
    RenderedIsPrintable(w.sigs, c, w.memories(log), p);
    CallbackLockstep(w.settings, w.hmac, w.matcher, Render(w.sigs, c, w.memories(log), p).value, conn, replies);
  }

  lemma {:induction false} RunSteady(w: Setting, replies: seq<seq<string>>, log: seq<Entry>)
    requires Ready(w, replies) && Mediated(log, Consulting(w))
    ensures Steady(ConnAt(w, log), replies)
    decreases |log|
  {
    if log == [] {
    } else {
      var before, e := log[..|log| - 1], log[|log| - 1];
      RunSteady(w, replies, before);
      if e.Approved? || e.Refused? {
        ConsultSteady(w, replies, before, ConnAt(w, before), e.pid, e.call);
      }
    }
  }

  lemma ConsultGrows(w: Setting, log: seq<Entry>, conn: Conn, p: Pid, c: Call)
    ensures conn.sent <= Consult(w, log, conn, p, c).0.sent
    ensures var line := Render(w.sigs, c, w.memories(log), p);
            line.Some? && ActionFor(w, line.value) == ASK ==>
              Confirm(conn, ASK_TEXT + line.value).0.sent <= Consult(w, log, conn, p, c).0.sent
  {
    var line := Render(w.sigs, c, w.memories(log), p);
    if line.Some? && ActionFor(w, line.value) == ASK {
      QuestionGrows(conn, ConfirmSetup(ASK_TEXT + line.value), CONFIRM);
      AskUntilGrows(Confirm(conn, ASK_TEXT + line.value).0, PASSWORD_DIALOG, "",
                    pw => VerifyHmac(w.hmac, w.settings.key, pw, w.settings.passwordHash));
    }
  }

  lemma {:induction false} RunGrows(w: Setting, log: seq<Entry>, i: nat)
    requires i <= |log|
    ensures ConnAt(w, log[..i]).sent <= ConnAt(w, log).sent
    decreases |log|
  {
    if i == |log| {
      assert log[..i] == log;
    } else {
      var before, e := log[..|log| - 1], log[|log| - 1];
      assert before[..i] == log[..i];
      RunGrows(w, before, i);
      ConsultGrows(w, before, ConnAt(w, before), e.pid, e.call);
    }
  }

  lemma ReceivedGrows(a: string, b: string)
    requires WholeLines(a) && a <= b
    ensures Received(a, []) <= Received(b, [])
  {
    if a == [] {
    } else {
      assert b == a + b[|a|..];
      ReceivedAfter(a, b[|a|..], []);
    }
  }

  // ---- what a decision rests on -------------------------------------------------------

  /** How many command lines the server had received when a decision was due. */
  function Asked(w: Setting, before: seq<Entry>): nat { |Received(ConnAt(w, before).sent, [])| }

  /** The rules allow the line; or they ask, the reply to this question's CONFIRM accepts, and if a password
      is set, the first entry for it that is not wrong is a correct one. The reply to the k-th command line
      is the one after the greeting and the k replies before it. */
  ghost predicate Authorised(w: Setting, replies: seq<seq<string>>, before: seq<Entry>, p: Pid, c: Call)
    requires AreReplies(replies)
  {
    var line, k := Render(w.sigs, c, w.memories(before), p), Asked(w, before);
    line.Some? &&
    match ActionFor(w, line.value)
    case ALLOW => true
    case DENY => false
    case ASK =>
      && k + 4 < |replies| && Accepted(replies[k + 4])
      && (w.settings.passwordHash == [] ||
          CorrectEntry(replies, k + 9, pw => IsCorrect(w.hmac, w.settings.key, pw, w.settings.passwordHash)))
  }

  /** Command lines k to k + 3 that the server received are the question about this line, and its CONFIRM. */
  ghost predicate Shown(c: Conn, k: nat, line: string) {
    && k + 4 <= |Received(c.sent, [])|
    && Received(c.sent, [])[k..k + 4] ==
       ["SETDESC " + ("Do you allow the following system call?%0a%0a" + line), "SETOK Allow", "SETCANCEL Deny", "CONFIRM"]
  }

  /** The verdict is that of the callback about the rendered line. */
  lemma ConsultIs(w: Setting, before: seq<Entry>, p: Pid, c: Call)
    requires !Consulting(w)(before, p, c).Abort?
    ensures var line := Render(w.sigs, c, w.memories(before), p);
            && line.Some?
            && var r := Callback(w.settings, w.hmac, w.matcher, line.value, ConnAt(w, before)).1;
               r.Ok? && (Consulting(w)(before, p, c).Allow? <==> r.value)
  {
    hide Render, Callback, ConnAt;
  }

  lemma ConsultDecides(w: Setting, replies: seq<seq<string>>, before: seq<Entry>, p: Pid, c: Call)
    requires Ready(w, replies) && Mediated(before, Consulting(w))
    requires !Consulting(w)(before, p, c).Abort?
    ensures Consulting(w)(before, p, c).Allow? <==> Authorised(w, replies, before, p, c)
  {
    var conn, line := ConnAt(w, before), Render(w.sigs, c, w.memories(before), p).value;
    RunSteady(w, replies, before);
    ConsultIs(w, before, p, c);
    hide Consult, ConnAt, Render, Received, Callback, HasRead, IsReply, Accepted, Cancelled, CorrectEntry, CancelledEntry;
    hide Mediated;
    assert HasRead(conn, replies, |Received(conn.sent, [])| + 1);
    DecisionCharacterised(w.settings, w.hmac, w.matcher, line, conn, replies, |Received(conn.sent, [])| + 1);
  }

  lemma ConfirmReturned(w: Setting, before: seq<Entry>, conn: Conn, p: Pid, c: Call)
    requires !Consult(w, before, conn, p, c).1.Abort?
    ensures var line := Render(w.sigs, c, w.memories(before), p);
            line.Some? && (ActionFor(w, line.value) == ASK ==> Confirm(conn, ASK_TEXT + line.value).1.Ok?)
  {
  }

  lemma ShownGrows(c: Conn, c': Conn, k: nat, line: string)
    requires Shown(c, k, line) && Received(c.sent, []) <= Received(c'.sent, [])
    ensures Shown(c', k, line)
  {
    hide Received;
    var r, r' := Received(c.sent, []), Received(c'.sent, []);
    assert r == r'[..|r|] && r'[k..k + 4] == r[k..k + 4];
  }

  lemma ConfirmCommands(message: string, received: seq<string>)
    ensures (received + ConfirmSetup(message) + [CONFIRM])[|received|..|received| + 4] ==
            ["SETDESC " + message, "SETOK Allow", "SETCANCEL Deny", "CONFIRM"]
  {
  }

  lemma ConfirmShows(conn: Conn, line: string, replies: seq<seq<string>>)
    requires AreReplies(replies) && Steady(conn, replies) && '\n' !in line
    requires Confirm(conn, ASK_TEXT + line).1.Ok?
    ensures Shown(Confirm(conn, ASK_TEXT + line).0, |Received(conn.sent, [])|, line)
    ensures Steady(Confirm(conn, ASK_TEXT + line).0, replies)
  {
    var message, k := ASK_TEXT + line, |Received(conn.sent, [])|;
    AskTextIsOneLine();
    ConfirmReads(conn, message, replies, k + 1);
    ConfirmLockstep(conn, message, replies);
    hide Confirm, InLockstep, WholeLines, Accepted, Cancelled, IsReply, HasRead;
    ConfirmOwnAnswer(conn, message, replies);
    hide Received;
    ConfirmCommands(message, Received(conn.sent, []));
  }

  /** The user saw the call: the question is among the lines the server received, where it was due. */
  lemma ConsultShows(w: Setting, replies: seq<seq<string>>, before: seq<Entry>, p: Pid, c: Call)
    requires Ready(w, replies) && Mediated(before, Consulting(w))
    requires !Consulting(w)(before, p, c).Abort?
    requires ActionFor(w, Render(w.sigs, c, w.memories(before), p).value) == ASK
    ensures Shown(Consult(w, before, ConnAt(w, before), p, c).0, Asked(w, before), Render(w.sigs, c, w.memories(before), p).value)
  {
    var conn := ConnAt(w, before);
    RunSteady(w, replies, before);
    RenderedIsPrintable(w.sigs, c, w.memories(before), p);
    ConfirmReturned(w, before, conn, p, c);
    ConsultGrows(w, before, conn, p, c);
    var line, after := Render(w.sigs, c, w.memories(before), p).value, Consult(w, before, conn, p, c).0;
    hide Consult, Confirm, Received, Shown, PrintableText, ConnAt;
    ConfirmShows(conn, line, replies);
    ReceivedGrows(Confirm(conn, ASK_TEXT + line).0.sent, after.sent);
    ShownGrows(Confirm(conn, ASK_TEXT + line).0, after, Asked(w, before), line);
  }

  lemma {:induction false} MediatedPrefix(log: seq<Entry>, decide: Decider, i: nat)
    requires Mediated(log, decide) && i <= |log|
    ensures Mediated(log[..i], decide)
    decreases |log|
  {
    if i == |log| {
      assert log[..i] == log;
    } else {
      MediatedPrefix(log[..|log| - 1], decide, i);
      assert log[..|log| - 1][..i] == log[..i];
    }
  }

  /** The question about a decision stays in what the server received. */
  lemma ShownLater(w: Setting, replies: seq<seq<string>>, log: seq<Entry>, j: nat)
    requires Ready(w, replies) && j < |log| && (log[j].Approved? || log[j].Refused?)
    requires Mediated(log[..j], Consulting(w))
    requires var p, c := log[j].pid, log[j].call;
             && !Consulting(w)(log[..j], p, c).Abort?
             && ActionFor(w, Render(w.sigs, c, w.memories(log[..j]), p).value) == ASK
    ensures var line := Render(w.sigs, log[j].call, w.memories(log[..j]), log[j].pid);
            Shown(ConnAt(w, log), Asked(w, log[..j]), line.value)
  {
    var before, next, p, c := log[..j], log[..j + 1], log[j].pid, log[j].call;
    var conn := ConnAt(w, before);
    ConsultShows(w, replies, before, p, c);
    RunSteady(w, replies, before);
    ConsultSteady(w, replies, before, conn, p, c);
    assert next[..j] == before && next[j] == log[j];
    assert ConnAt(w, next) == Consult(w, before, conn, p, c).0;
    RunGrows(w, log, j + 1);
    hide ConnAt, Consult, Received, InLockstep;
    ReceivedGrows(ConnAt(w, next).sent, ConnAt(w, log).sent);
  }

  lemma DecisionAt(w: Setting, replies: seq<seq<string>>, log: seq<Entry>, j: nat)
    requires Ready(w, replies) && Mediated(log, Consulting(w))
    requires j < |log| && (log[j].Approved? || log[j].Refused?)
    ensures var p, c := log[j].pid, log[j].call;
            var line := Render(w.sigs, c, w.memories(log[..j]), p);
            && (log[j].Approved? <==> Authorised(w, replies, log[..j], p, c))
            && line.Some?
            && (ActionFor(w, line.value) == ASK ==> Shown(ConnAt(w, log), Asked(w, log[..j]), line.value))
  {
    var p, c := log[j].pid, log[j].call;
    MediatedAt(log, Consulting(w), j);
    MediatedPrefix(log, Consulting(w), j);
    ConsultDecides(w, replies, log[..j], p, c);
    if ActionFor(w, Render(w.sigs, c, w.memories(log[..j]), p).value) == ASK {
      ShownLater(w, replies, log, j);
    }
  }

  /** Every decision in every run: the call was approved exactly when the rules and the user's own answers
      authorise it, and when the rules ask, the server was shown this very line, before the CONFIRM whose
      reply decided. */
  lemma DecisionsAreAnswers(w: Setting, replies: seq<seq<string>>, root: Pid, turns: seq<Turn>, j: nat)
    requires Ready(w, replies)
    requires var log := Play(Start(root), turns, Consulting(w)).k.log;
             j < |log| && (log[j].Approved? || log[j].Refused?)
    ensures var log := Play(Start(root), turns, Consulting(w)).k.log;
            var p, c := log[j].pid, log[j].call;
            var line := Render(w.sigs, c, w.memories(log[..j]), p);
            && (log[j].Approved? <==> Authorised(w, replies, log[..j], p, c))
            && line.Some?
            && (ActionFor(w, line.value) == ASK ==> Shown(ConnAt(w, log), Asked(w, log[..j]), line.value))
  {
    SimulationInvariant(root, turns, Consulting(w));
    var log := Play(Start(root), turns, Consulting(w)).k.log;
    DecisionAt(w, replies, log, j);
  }

  /** Whatever executes, in any run, was authorised by the decision just before it, about the same thread,
      number and arguments, on the line rendered from that thread's memory at that moment. */
  lemma ExecutedOnlyIfAuthorised(w: Setting, replies: seq<seq<string>>, root: Pid, turns: seq<Turn>, i: nat)
    requires Ready(w, replies)
    requires i < |Play(Start(root), turns, Consulting(w)).k.log|
    requires Play(Start(root), turns, Consulting(w)).k.log[i].Executed?
    ensures var log := Play(Start(root), turns, Consulting(w)).k.log;
            var p, c := log[i].pid, log[i].call;
            exists j: nat :: Adjacent(log, j, i) && log[j] == Approved(p, c) && Authorised(w, replies, log[..j], p, c)
  {
    ExecutedOnlyIfApproved(root, turns, Consulting(w), i);
    var log := Play(Start(root), turns, Consulting(w)).k.log;
    var j: int :| Adjacent(log, j, i) && log[j] == Approved(log[i].pid, log[i].call);
    DecisionsAreAnswers(w, replies, root, turns, j);
  }

  lemma {:induction false} SomeApproval(log: seq<Entry>, p: Pid, c: Call) returns (i: nat)
    requires Approvals(log, p, c) > 0
    ensures i < |log| && log[i] == Approved(p, c)
    decreases |log|
  {
    if log[|log| - 1] == Approved(p, c) {
      i := |log| - 1;
    } else {
      i := SomeApproval(log[..|log| - 1], p, c);
    }
  }

  /** The rules deny every line that is rendered for call c of p, whatever its memory holds at the time. */
  ghost predicate AlwaysDenied(w: Setting, p: Pid, c: Call) {
    forall log :: Render(w.sigs, c, w.memories(log), p).Some? ==> ActionFor(w, Render(w.sigs, c, w.memories(log), p).value) == DENY
  }

  /** Such a call never executes, in any run, however the server behaves. */
  lemma DeniedLinesNeverRun(w: Setting, root: Pid, turns: seq<Turn>, p: Pid, c: Call)
    requires AlwaysDenied(w, p, c)
    ensures Executions(Play(Start(root), turns, Consulting(w)).k.log, p, c) == 0
  {
    var log := Play(Start(root), turns, Consulting(w)).k.log;
    SimulationInvariant(root, turns, Consulting(w));
    if Approvals(log, p, c) > 0 {
      var i := SomeApproval(log, p, c);
      MediatedAt(log, Consulting(w), i);
    }
    ApprovalsCoverExecutions(log, p, c, Consulting(w));
  }
}
