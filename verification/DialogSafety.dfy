/** Rendered lines and the dialog: nothing a traced process does puts the conversation out of step. */
module DialogSafety {
  import opened Base
  import opened Kernel
  import opened RemoteMemory
  import opened Escapes
  import opened SyscallDefs
  import opened Parser
  import opened ParserTheorems
  import opened Pinentry
  import opened PinentryReplies
  import opened PinentrySession
  import opened Config
  import opened Dialogs
  import opened Decision
  import opened Startup

  lemma {:induction false} TextIsWholeLines(commands: seq<string>)
    ensures WholeLines(Text(commands))
    decreases |commands|
  {
    if commands == [] {
    } else {
      TextIsWholeLines(commands[1..]);
    }
  }

  /** An answered question in lockstep leaves the conversation in lockstep, after whole lines. */
  lemma AnsweredQuestion(c: Conn, setup: seq<string>, query: string, prefix: string, message: string, replies: seq<seq<string>>)
    requires AreReplies(replies) && InLockstep(c, replies) && WholeLines(c.sent)
    requires |Received(c.sent, [])| + 1 + |setup| < |replies|
    requires setup != [] && setup[0] == prefix + message && '\n' !in prefix && '\n' !in query && '\n' !in message
    requires forall i :: 0 < i < |setup| ==> '\n' !in setup[i]
    ensures InLockstep(Question(c, setup, query).0, replies) && WholeLines(Question(c, setup, query).0.sent)
  {
    QuestionOwnAnswer(c, setup, query, prefix, message, replies);
    var j := QuestionAdvances(c, setup, query, replies, |Received(c.sent, [])| + 1);
    TextIsWholeLines((setup + [query])[..j]);
  }

  lemma GetPinLockstep(c: Conn, d: Dialog, error: string, replies: seq<seq<string>>)
    requires AreReplies(replies) && InLockstep(c, replies) && WholeLines(c.sent) && OneLine(d) && '\n' !in error
    requires GetPin(c, d.message, d.prompt, error).1.Ok?
    ensures InLockstep(GetPin(c, d.message, d.prompt, error).0, replies)
    ensures WholeLines(GetPin(c, d.message, d.prompt, error).0.sent)
  {
    var setup := PinSetup(d.message, d.prompt, error);
    PinSetupFacts(d.message, d.prompt, error);
    GetPinReads(c, d, error, replies, |Received(c.sent, [])| + 1);
    AnsweredQuestion(c, setup, GETPIN, "SETDESC ", d.message, replies);
  }

  lemma {:induction false} DialogLockstep(c: Conn, d: Dialog, error: string, accept: string -> bool, replies: seq<seq<string>>)
    requires AreReplies(replies) && InLockstep(c, replies) && WholeLines(c.sent) && OneLine(d) && '\n' !in error
    requires AskUntil(c, d, error, accept).1.Ok?
    ensures InLockstep(AskUntil(c, d, error, accept).0, replies) && WholeLines(AskUntil(c, d, error, accept).0.sent)
    decreases |c.inbox|
  {
    var (c', r) := GetPin(c, d.message, d.prompt, error);
    GetPinLockstep(c, d, error, replies);
    if r.value.cancelled || accept(r.value.password) {
    } else {
      GetPinShrinks(c, d.message, d.prompt, error);
      DialogLockstep(c', d, d.retry, accept, replies);
    }
  }

  lemma TitleIsOneLine()
    ensures '\n' !in TITLE
  {
  }

  /** A set-up that succeeds has sent all its commands. */
  lemma {:induction false} SetupSends(c: Conn, commands: seq<string>)
    ensures Setup(c, commands).1.Ok? ==> Setup(c, commands).0.sent == c.sent + Text(commands)
    decreases |commands|
  {
    if commands == [] {
      assert c.sent + "" == c.sent;
    } else {
      SetupSends(Exchange(c, commands[0]).0, commands[1..]);
      assert c.sent + commands[0] + "\n" + Text(commands[1..]) == c.sent + (commands[0] + "\n" + Text(commands[1..]));
    }
  }

  /** A conversation that is in lockstep, after whole lines. */
  ghost predicate Steady(c: Conn, replies: seq<seq<string>>) {
    InLockstep(c, replies) && WholeLines(c.sent)
  }

  /** An opened conversation is in lockstep, and still is after the dialog about the signing key. */
  lemma StartIsSteady(replies: seq<seq<string>>, accept: string -> bool)
    requires AreReplies(replies) && Open(Conn("", Flatten(replies))).1.Ok?
    ensures var c := Open(Conn("", Flatten(replies))).0;
            && Steady(c, replies)
            && (AskUntil(c, KEY_DIALOG, "", accept).1.Ok? ==> Steady(AskUntil(c, KEY_DIALOG, "", accept).0, replies))
  {
    var c0 := Conn("", Flatten(replies));
    var c := Open(c0).0;
    OpenReads(replies);
    SetupSends(c0.(inbox := Receive(c0.inbox, "").1), [TITLE]);
    assert c.sent == Text([TITLE]);
    TitleIsOneLine();
    SentLockstep(c, replies, [TITLE]);
    NoNewlinesIn([TITLE]);
    TextIsWholeLines([TITLE]);
    KeyDialogIsOneLine();
    if AskUntil(c, KEY_DIALOG, "", accept).1.Ok? {
      DialogLockstep(c, KEY_DIALOG, "", accept, replies);
    }
  }

  lemma ConfirmLockstep(c: Conn, message: string, replies: seq<seq<string>>)
    requires AreReplies(replies) && InLockstep(c, replies) && WholeLines(c.sent) && '\n' !in message
    requires Confirm(c, message).1.Ok?
    ensures InLockstep(Confirm(c, message).0, replies) && WholeLines(Confirm(c, message).0.sent)
  {
    ConfirmReads(c, message, replies, |Received(c.sent, [])| + 1);
    AnsweredQuestion(c, ConfirmSetup(message), CONFIRM, "SETDESC ", message, replies);
  }

  lemma CallbackLockstep(s: Settings, hmac: Hmac, matcher: Matcher, line: string, c: Conn, replies: seq<seq<string>>)
    requires AreReplies(replies) && InLockstep(c, replies) && WholeLines(c.sent) && '\n' !in line
    requires Callback(s, hmac, matcher, line, c).1.Ok?
    ensures InLockstep(Callback(s, hmac, matcher, line, c).0, replies)
    ensures WholeLines(Callback(s, hmac, matcher, line, c).0.sent)
  {
    if ActionOf(s.rules.groups, s.rules.default, line, matcher) == ASK {
      AskTextIsOneLine();
      PasswordDialogIsOneLine();
      ConfirmLockstep(c, ASK_TEXT + line, replies);
      var (c1, r) := Confirm(c, ASK_TEXT + line);
      if r.value && s.passwordHash != [] {
        DialogLockstep(c1, PASSWORD_DIALOG, "", pw => VerifyHmac(hmac, s.key, pw, s.passwordHash), replies);
      }
    }
  }

  /** The callback on a rendered call: whatever the traced process put into its registers and memory, the
      conversation is in lockstep again when the callback returns. */
  lemma RenderedCallsKeepLockstep(sigs: map<U64, Sig>, call: Call, world: map<Pid, Mem>, target: Pid,
                                  s: Settings, hmac: Hmac, matcher: Matcher, c: Conn, replies: seq<seq<string>>)
    requires forall n :: n in sigs ==> PrintableText(sigs[n].name)
    requires Render(sigs, call, world, target).Some?
    requires AreReplies(replies) && InLockstep(c, replies) && WholeLines(c.sent)
    requires Callback(s, hmac, matcher, Render(sigs, call, world, target).value, c).1.Ok?
    ensures var c' := Callback(s, hmac, matcher, Render(sigs, call, world, target).value, c).0;
            InLockstep(c', replies) && WholeLines(c'.sent)
  {
    RenderedIsPrintable(sigs, call, world, target);
    CallbackLockstep(s, hmac, matcher, Render(sigs, call, world, target).value, c, replies);
  }

  /** The conversation after one callback for each line, up to the first exception. */
  function CallbackAll(s: Settings, hmac: Hmac, matcher: Matcher, lines: seq<string>, c: Conn): (Conn, bool)
    decreases |lines|
  {
    if lines == [] then (c, true)
    else
      var r := Callback(s, hmac, matcher, lines[0], c);
      if r.1.Thrown? then (r.0, false) else CallbackAll(s, hmac, matcher, lines[1..], r.0)
  }

  ghost predicate IsRendered(sigs: map<U64, Sig>, line: string) {
    exists call: Call, world: map<Pid, Mem>, target: Pid :: Render(sigs, call, world, target) == Some(line)
  }

  /** Lines the renderer can produce, from any calls and any memories. */
  ghost predicate AllRendered(sigs: map<U64, Sig>, lines: seq<string>) {
    forall i :: 0 <= i < |lines| ==> IsRendered(sigs, lines[i])
  }

  /** A whole session of callbacks on rendered calls stays in lockstep as long as none throws. */
  lemma {:induction false} WholeSessionKeepsLockstep(sigs: map<U64, Sig>, lines: seq<string>,
                                                     s: Settings, hmac: Hmac, matcher: Matcher,
                                                     c: Conn, replies: seq<seq<string>>)
    requires forall n :: n in sigs ==> PrintableText(sigs[n].name)
    requires AllRendered(sigs, lines)
    requires AreReplies(replies) && InLockstep(c, replies) && WholeLines(c.sent)
    requires CallbackAll(s, hmac, matcher, lines, c).1
    ensures InLockstep(CallbackAll(s, hmac, matcher, lines, c).0, replies)
    decreases |lines|
  {
    if lines == [] {
    } else {
      assert IsRendered(sigs, lines[0]);
      var call: Call, world: map<Pid, Mem>, target: Pid :| Render(sigs, call, world, target) == Some(lines[0]);
      RenderedCallsKeepLockstep(sigs, call, world, target, s, hmac, matcher, c, replies);
      assert forall i :: 0 <= i < |lines| - 1 ==> lines[1..][i] == lines[i + 1];
      WholeSessionKeepsLockstep(sigs, lines[1..], s, hmac, matcher, Callback(s, hmac, matcher, lines[0], c).0, replies);
    }
  }
}
