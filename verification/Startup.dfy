/** The start-up gate: which sessions reach tracing, and with which configuration. */
module Startup {
  import opened Base
  import opened Pinentry
  import opened PinentryReplies
  import opened PinentrySession
  import opened Config
  import opened Dialogs
  import opened Decision

  datatype Outcome =
    | Tracing
    | ExitFailure
    | Raised(failure: Failure)
    | BadSignatureFile

  datatype KeyEnd = Verified(key: string) | GaveUp | Failed(failure: Failure) | BadFile

  predicate GoodFile(file: Option<seq<Byte>>) { file.Some? && |file.value| == HASH_SIZE }

  predicate Verifies(hmac: Hmac, config: string, file: Option<seq<Byte>>, key: string) {
    GoodFile(file) && VerifyHmac(hmac, key, config, file.value)
  }

  /** The key loop. With an unusable signature file the first entry already ends it. */
  function KeyLoop(hmac: Hmac, config: string, file: Option<seq<Byte>>, c: Conn): KeyEnd {
    if GoodFile(file) then
      match AskUntil(c, KEY_DIALOG, "", key => Verifies(hmac, config, file, key)).1
      case Thrown(f) => Failed(f)
      case Ok(None) => GaveUp
      case Ok(Some(key)) => Verified(key)
    else
      match GetPin(c, KEY_DIALOG.message, KEY_DIALOG.prompt, "").1
      case Thrown(f) => Failed(f)
      case Ok(p) => if p.cancelled then GaveUp else BadFile
  }

  /** `first` is what the dialog started before the key is known says; `second` the configured one. */
  function Gate(noSignature: bool, pinentryGiven: bool, s: Settings, hmac: Hmac, file: Option<seq<Byte>>,
                first: seq<string>, second: seq<string>): (Outcome, Settings) {
    var (c1, r1) := Open(Conn("", first));
    var (_, r2) := Open(Conn("", second));
    if (pinentryGiven || !noSignature) && r1.Thrown? then (Raised(r1.failure), s)
    else
      var end := if noSignature then Verified(s.key) else KeyLoop(hmac, s.config, file, c1);
      match end
      case Failed(f) => (Raised(f), s)
      case BadFile => (BadSignatureFile, s)
      case GaveUp => (ExitFailure, s)
      case Verified(key) =>
        if !pinentryGiven && r2.Thrown? then (Raised(r2.failure), s)
        else (Tracing, s.(config := "", key := key, passwordHash := if noSignature then [] else s.passwordHash))
  }

  /** The retry loop over the objects. */
  method AskKey(config: FileConfig, conn: PinentryConn, file: Option<seq<Byte>>) returns (end: KeyEnd)
    modifies config`key, config`config, conn
    ensures end == KeyLoop(config.hmac, old(config.config), file, old(conn.Value()))
    ensures end.Verified? ==> config.key == end.key && config.config == ""
  {
    ghost var hmac, text := config.hmac, config.config;
    ghost var accept := key => Verifies(hmac, text, file, key);
    ghost var goal := AskUntil(conn.Value(), KEY_DIALOG, "", accept).1;
    var e := conn.GetPassword(KEY_DIALOG.message, KEY_DIALOG.prompt, "");
    if e.Thrown? {
      return Failed(e.failure);
    }
    var key := e.value;
    if key.cancelled {
      return GaveUp;
    }
    var verified := config.VerifySignature(key.password, file);
    while verified == Some(false)
      invariant config.hmac == hmac && !key.cancelled && config.key == key.password
      invariant verified.Some? <==> GoodFile(file)
      invariant verified.Some? ==> verified.value == accept(key.password)
      invariant config.config == if verified == Some(true) then "" else text
      invariant goal == if accept(key.password) then Ok(Some(key.password))
                        else AskUntil(conn.Value(), KEY_DIALOG, KEY_DIALOG.retry, accept).1
      decreases |conn.inbox|
    {
      GetPinShrinks(conn.Value(), KEY_DIALOG.message, KEY_DIALOG.prompt, KEY_DIALOG.retry);
      e := conn.GetPassword(KEY_DIALOG.message, KEY_DIALOG.prompt, KEY_DIALOG.retry);
      if e.Thrown? {
        return Failed(e.failure);
      }
      key := e.value;
      if key.cancelled {
        return GaveUp;
      }
      verified := config.VerifySignature(key.password, file);
    }
    if verified.None? {
      return BadFile;
    }
    return Verified(key.password);
  }

  /** Launching pinentry: a new connection on which the server says `replies`. */
  method Launch(inbox: seq<string>) returns (conn: PinentryConn, r: Result<()>)
    ensures fresh(conn) && (conn.Value(), r) == Open(Conn("", inbox))
  {
    conn := new PinentryConn(inbox);
    r := conn.OpenConn();
  }

  /** `run`, up to the construction of the tracer. */
  method Start(noSignature: bool, pinentryGiven: bool, config: FileConfig, file: Option<seq<Byte>>,
               first: seq<string>, second: seq<string>) returns (outcome: Outcome)
    modifies config
    ensures outcome == Gate(noSignature, pinentryGiven, old(config.State()), config.hmac, file, first, second).0
    ensures outcome.Tracing? ==>
              config.State() == Gate(noSignature, pinentryGiven, old(config.State()), config.hmac, file, first, second).1
  {
    var ui: PinentryConn? := null;
    var r: Result<()>;
    if pinentryGiven {
      ui, r := Launch(first);
      if r.Thrown? {
        return Raised(r.failure);
      }
    }
    if noSignature {
      config.DismissSignature();
      config.RemovePassword();
    } else {
      if ui == null {
        ui, r := Launch(first);
        if r.Thrown? {
          return Raised(r.failure);
        }
      }
      var end := AskKey(config, ui, file);
      match end {
        case Failed(f) => return Raised(f);
        case BadFile => return BadSignatureFile;
        case GaveUp => return ExitFailure;
        case Verified(_) =>
      }
    }
    if !pinentryGiven {
      ui, r := Launch(second);
      if r.Thrown? {
        return Raised(r.failure);
      }
    }
    return Tracing;
  }

  // ---- the gate, by replies ---------------------------------------------------------

  /** The greeting and the reply to the title succeed. */
  ghost predicate Opens(replies: seq<seq<string>>)
    requires AreReplies(replies)
  {
    SetUp(replies, 0, 2)
  }

  lemma OpenReads(replies: seq<seq<string>>)
    requires AreReplies(replies)
    ensures Open(Conn("", Flatten(replies))).1.Ok? <==> Opens(replies)
    ensures Open(Conn("", Flatten(replies))).1.Ok? ==> HasRead(Open(Conn("", Flatten(replies))).0, replies, 2)
  {
    var c := Conn("", Flatten(replies));
    assert replies[0..] == replies;
    if |replies| > 1 {
      ReadNext(c, replies, 0);
      SetUpIff(replies, 0, 2);
      var j := SetupAdvances(c.(inbox := Flatten(replies[1..])), [TITLE], replies, 1);
    } else if |replies| == 1 {
      ReadNext(c, replies, 0);
      assert replies[1..] == [];
    }
  }

  /** The check of an entry against the text as it was loaded, without the code's own function. */
  predicate Signs(hmac: Hmac, text: string, file: Option<seq<Byte>>, key: string) {
    file.Some? && IsCorrect(hmac, key, text, file.value)
  }

  lemma SignatureCheck(hmac: Hmac, text: string, file: Option<seq<Byte>>, key: string)
    ensures Verifies(hmac, text, file, key) <==> Signs(hmac, text, file, key)
  {
    var mac: Option<Digest> := hmac(key, text);
    assert mac.Some? ==> |mac.value| == HASH_SIZE;
  }

  lemma SameSignature(hmac: Hmac, text: string, file: Option<seq<Byte>>, replies: seq<seq<string>>)
    requires AreReplies(replies)
    ensures var a1, a2 := key => Verifies(hmac, text, file, key), key => Signs(hmac, text, file, key);
            && (CorrectEntry(replies, 6, a1) <==> CorrectEntry(replies, 6, a2))
            && (CancelledEntry(replies, 6, a1) <==> CancelledEntry(replies, 6, a2))
            && (DialogReturns(replies, 2, 6, a1) <==> DialogReturns(replies, 2, 6, a2))
            && (forall i: nat, entered :: EndsAt(replies, 6, i, a1, entered) <==> EndsAt(replies, 6, i, a2, entered))
  {
    var a1, a2 := key => Verifies(hmac, text, file, key), key => Signs(hmac, text, file, key);
    forall e ensures a1(e) <==> a2(e) {
      SignatureCheck(hmac, text, file, e);
    }
    SameAccept(replies, 2, 6, a1, a2);
  }

  lemma FirstCancel(replies: seq<seq<string>>, accept: string -> bool)
    requires AreReplies(replies) && 6 < |replies| && IsCancel(replies[6])
    ensures CancelledEntry(replies, 6, accept) && !CorrectEntry(replies, 6, accept)
  {
    assert Attempt(replies, 6, 0) == replies[6];
    CancelIsNoEntry(replies[6], accept);
    hide IsReply, Accepted, Cancelled, Carries, IsWrong;
    assert EndsAt(replies, 6, 0, accept, None);
    forall i: nat | DecidedAt(replies, 6, i, accept) ensures i == 0 {
      DecidedOnce(replies, 6, i, 0, accept);
    }
  }

  /** How the key dialog ends: with a signature file of the right size, at the first entry that signs or at a
      cancel before it; with any other, at the first reply. */
  lemma KeyLoopEnds(hmac: Hmac, text: string, file: Option<seq<Byte>>, c: Conn, replies: seq<seq<string>>)
    requires AreReplies(replies) && HasRead(c, replies, 2)
    ensures var end := KeyLoop(hmac, text, file, c);
            var accept := key => Verifies(hmac, text, file, key);
            if GoodFile(file) then
              && (end.Verified? || end.GaveUp? <==> DialogReturns(replies, 2, 6, accept))
              && (end.Verified? ==>
                    && accept(end.key) && CorrectEntry(replies, 6, accept) && !CancelledEntry(replies, 6, accept)
                    && exists i: nat :: EndsAt(replies, 6, i, accept, Some(end.key)))
              && (end.GaveUp? ==> CancelledEntry(replies, 6, accept) && !CorrectEntry(replies, 6, accept))
            else
              && !end.Verified?
              && (end.GaveUp? <==> 6 < |replies| && SetUp(replies, 2, 6) && Cancelled(replies[6]))
              && (end.GaveUp? ==> CancelledEntry(replies, 6, accept) && !CorrectEntry(replies, 6, accept))
  {
    hide HasRead, VerifyHmac, SetUp, IsReply, IsEntry, IsWrong, Carries;
    var accept := key => Verifies(hmac, text, file, key);
    if GoodFile(file) {
      hide GetPin, DecidedAt, Explains, DialogReturns;
      AskUntilReturnsIff(c, KEY_DIALOG, accept, replies, 2);
      if AskUntil(c, KEY_DIALOG, "", accept).1.Ok? {
        DialogOutcome(c, KEY_DIALOG, accept, replies, 2);
        var i := AskUntilDecides(c, KEY_DIALOG, "", accept, replies, 2);
      }
    } else {
      GetPinReads(c, KEY_DIALOG, "", replies, 2);
      hide GetPin;
      if 6 < |replies| {
        AcceptedIff(replies[6]);
      }
      if KeyLoop(hmac, text, file, c).GaveUp? {
        FirstCancel(replies, accept);
      }
    }
  }

  /** What the key dialog has put to the user when it returns with a signature file of the right size. */
  lemma KeyDialogAsks(hmac: Hmac, text: string, file: Option<seq<Byte>>, c: Conn, replies: seq<seq<string>>)
    returns (i: nat)
    requires AreReplies(replies) && HasRead(c, replies, 2)
    requires AskUntil(c, KEY_DIALOG, "", key => Verifies(hmac, text, file, key)).1.Ok?
    ensures var accept := key => Verifies(hmac, text, file, key);
            var signs := key => Signs(hmac, text, file, key);
            var dialog := Dialog("Enter the configuration file signing key.", "key: ",
                                 "Incorrect key, or the configuration has been changed.");
            && AskUntil(c, KEY_DIALOG, "", accept).0.sent == c.sent + Text(DialogCommands(dialog, "", i))
            && DecidedAt(replies, 6, i, signs)
  {
    hide AskUntil, HasRead, DialogCommands, Text;
    SameSignature(hmac, text, file, replies);
    i := AskUntilDecides(c, KEY_DIALOG, "", key => Verifies(hmac, text, file, key), replies, 2);
  }

  /** If start-up neither fails on input nor on the signature file: tracing starts exactly with -n, or when
      some key whose HMAC of the text is the signature comes before the first cancel; otherwise it exits with
      failure. */
  lemma GateOpensIff(noSignature: bool, pinentryGiven: bool, s: Settings, hmac: Hmac, file: Option<seq<Byte>>,
                     replies: seq<seq<string>>, second: seq<string>)
    requires AreReplies(replies)
    requires var o := Gate(noSignature, pinentryGiven, s, hmac, file, Flatten(replies), second).0;
             o.Tracing? || o.ExitFailure?
    ensures var o := Gate(noSignature, pinentryGiven, s, hmac, file, Flatten(replies), second).0;
            var accept := key => Signs(hmac, s.config, file, key);
            && (o.Tracing? <==> noSignature || CorrectEntry(replies, 6, accept))
            && (o.ExitFailure? <==> !noSignature && CancelledEntry(replies, 6, accept))
  {
    hide Open, KeyLoop, HasRead, CorrectEntry, CancelledEntry, DialogReturns;
    if !noSignature {
      OpenReads(replies);
      KeyLoopEnds(hmac, s.config, file, Open(Conn("", Flatten(replies))).0, replies);
      SameSignature(hmac, s.config, file, replies);
    }
  }

  /** Exactly when tracing starts, and exactly when start-up exits with failure, for any replies: everything
      else is an exception. */
  lemma GateExact(noSignature: bool, pinentryGiven: bool, s: Settings, hmac: Hmac, file: Option<seq<Byte>>,
                  first: seq<seq<string>>, second: seq<seq<string>>)
    requires AreReplies(first) && AreReplies(second)
    ensures var o := Gate(noSignature, pinentryGiven, s, hmac, file, Flatten(first), Flatten(second)).0;
            var accept := key => Signs(hmac, s.config, file, key);
            && (o.Tracing? <==>
                  && (pinentryGiven || !noSignature ==> Opens(first))
                  && (!noSignature ==>
                        && file.Some? && |file.value| == 64
                        && DialogReturns(first, 2, 6, accept) && CorrectEntry(first, 6, accept))
                  && (!pinentryGiven ==> Opens(second)))
            && (o.ExitFailure? <==>
                  && !noSignature && Opens(first)
                  && if file.Some? && |file.value| == 64
                     then DialogReturns(first, 2, 6, accept) && CancelledEntry(first, 6, accept)
                     else 6 < |first| && SetUp(first, 2, 6) && Cancelled(first[6]))
  {
    hide Open, KeyLoop, HasRead, CorrectEntry, CancelledEntry, DialogReturns, SetUp, IsReply, Signs;
    OpenReads(first);
    OpenReads(second);
    if !noSignature && Opens(first) {
      KeyLoopEnds(hmac, s.config, file, Open(Conn("", Flatten(first))).0, first);
      SameSignature(hmac, s.config, file, first);
    }
  }

  /** Once tracing starts: the configuration text is gone; with -n there is no password and the key is
      untouched; otherwise the stored key is the first entry whose HMAC of the text as it was loaded is the
      signature, and the password is kept. */
  lemma GateLeaves(noSignature: bool, pinentryGiven: bool, s: Settings, hmac: Hmac, file: Option<seq<Byte>>,
                   replies: seq<seq<string>>, second: seq<string>)
    requires AreReplies(replies)
    requires Gate(noSignature, pinentryGiven, s, hmac, file, Flatten(replies), second).0.Tracing?
    ensures var s' := Gate(noSignature, pinentryGiven, s, hmac, file, Flatten(replies), second).1;
            var accept := key => Signs(hmac, s.config, file, key);
            && s'.config == "" && s'.rules == s.rules
            && (if noSignature then s'.passwordHash == [] && s'.key == s.key
                else
                  && s'.passwordHash == s.passwordHash && accept(s'.key)
                  && exists i: nat :: EndsAt(replies, 6, i, accept, Some(s'.key)))
  {
    hide Open, KeyLoop, HasRead, CorrectEntry, CancelledEntry, DialogReturns, EndsAt;
    if !noSignature {
      OpenReads(replies);
      var end := KeyLoop(hmac, s.config, file, Open(Conn("", Flatten(replies))).0);
      KeyLoopEnds(hmac, s.config, file, Open(Conn("", Flatten(replies))).0, replies);
      SameSignature(hmac, s.config, file, replies);
      SignatureCheck(hmac, s.config, file, end.key);
      var i: nat :| EndsAt(replies, 6, i, key => Verifies(hmac, s.config, file, key), Some(end.key));
      assert EndsAt(replies, 6, i, key => Signs(hmac, s.config, file, key), Some(end.key));
    }
  }

  /** With the key that signed the text, and no other key with the same signature: tracing starts with that
      key, and exactly if it is entered, after other keys only. */
  lemma SigningKeyDecides(pinentryGiven: bool, s: Settings, hmac: Hmac, file: Option<seq<Byte>>,
                          replies: seq<seq<string>>, second: seq<string>, key: string)
    requires AreReplies(replies)
    requires var o := Gate(false, pinentryGiven, s, hmac, file, Flatten(replies), second).0;
             o.Tracing? || o.ExitFailure?
    requires hmac(key, s.config).Some? && file == Some(hmac(key, s.config).value)
    requires forall other :: hmac(other, s.config) == hmac(key, s.config) ==> other == key
    ensures var (o, s') := Gate(false, pinentryGiven, s, hmac, file, Flatten(replies), second);
            && (o.Tracing? <==> EnteredFirst(replies, 6, key))
            && (o.Tracing? ==> s'.key == key)
  {
    var accept := k => Signs(hmac, s.config, file, k);
    GateOpensIff(false, pinentryGiven, s, hmac, file, replies, second);
    if Gate(false, pinentryGiven, s, hmac, file, Flatten(replies), second).0.Tracing? {
      GateLeaves(false, pinentryGiven, s, hmac, file, replies, second);
    }
    hide Gate, CorrectEntry, CancelledEntry, EnteredFirst, EndsAt;
    assert forall k :: accept(k) <==> k == key;
    OnlyRight(replies, 6, accept, key);
  }
}
