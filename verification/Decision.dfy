/** The syscall callback: rules, the user's answer, and the password loop, over one pinentry conversation. */
module Decision {
  import opened Base
  import opened Pinentry
  import opened PinentryReplies
  import opened PinentrySession
  import opened Config
  import opened Dialogs

  function AskUntil(c: Conn, d: Dialog, error: string, accept: string -> bool): (Conn, Result<Option<string>>)
    decreases |c.inbox|
  {
    var (c', r) := GetPin(c, d.message, d.prompt, error);
    match r
    case Thrown(f) => (c', Thrown(f))
    case Ok(p) =>
      if p.cancelled then (c', Ok(None))
      else if accept(p.password) then (c', Ok(Some(p.password)))
      else
        GetPinShrinks(c, d.message, d.prompt, error);
        AskUntil(c', d, d.retry, accept)
  }

  function Callback(s: Settings, hmac: Hmac, matcher: Matcher, line: string, c: Conn): (Conn, Result<bool>) {
    match ActionOf(s.rules.groups, s.rules.default, line, matcher)
    case ALLOW => (c, Ok(true))
    case DENY => (c, Ok(false))
    case ASK =>
      var (c1, r) := Confirm(c, ASK_TEXT + line);
      if r.Thrown? || !r.value || s.passwordHash == [] then (c1, r)
      else
        var (c2, entered) := AskUntil(c1, PASSWORD_DIALOG, "", pw => VerifyHmac(hmac, s.key, pw, s.passwordHash));
        (c2, match entered case Thrown(f) => Thrown(f) case Ok(o) => Ok(o.Some?))
  }

  /** The objects the callback captures. */
  class Approver {
    const config: FileConfig
    const conn: PinentryConn

    constructor (config: FileConfig, conn: PinentryConn)
      ensures this.config == config && this.conn == conn
    {
      this.config, this.conn := config, conn;
    }

    /** The password loop, after the user has allowed the call. */
    method AskPassword() returns (r: Result<bool>)
      modifies conn
      ensures var (c, entered) := AskUntil(old(conn.Value()), PASSWORD_DIALOG, "",
                                           pw => VerifyHmac(config.hmac, old(config.key), pw, old(config.passwordHash)));
              conn.Value() == c && r == match entered case Thrown(f) => Thrown(f) case Ok(o) => Ok(o.Some?)
    {
      ghost var hmac, key, hash := config.hmac, config.key, config.passwordHash;
      ghost var accept := pw => VerifyHmac(hmac, key, pw, hash);
      ghost var goal := AskUntil(conn.Value(), PASSWORD_DIALOG, "", accept);
      var e := conn.GetPassword(PASSWORD_DIALOG.message, PASSWORD_DIALOG.prompt, "");
      if e.Thrown? {
        return Thrown(e.failure);
      }
      var password := e.value;
      if password.cancelled {
        return Ok(false);
      }
      while !config.VerifyPassword(password.password)
        invariant config.hmac == hmac && config.key == key && config.passwordHash == hash
        invariant !password.cancelled
        invariant goal == if accept(password.password) then (conn.Value(), Ok(Some(password.password)))
                          else AskUntil(conn.Value(), PASSWORD_DIALOG, PASSWORD_RETRY, accept)
        decreases |conn.inbox|
      {
        GetPinShrinks(conn.Value(), PASSWORD_DIALOG.message, PASSWORD_DIALOG.prompt, PASSWORD_DIALOG.retry);
        e := conn.GetPassword(PASSWORD_DIALOG.message, PASSWORD_DIALOG.prompt, PASSWORD_DIALOG.retry);
        if e.Thrown? {
          return Thrown(e.failure);
        }
        password := e.value;
        if password.cancelled {
          return Ok(false);
        }
      }
      return Ok(true);
    }

    method Decide(line: string) returns (r: Result<bool>)
      modifies conn
      ensures (conn.Value(), r) == Callback(old(config.State()), config.hmac, config.matcher, line, old(conn.Value()))
    {
      var action := config.GetAction(line);
      match action
      case ALLOW => r := Ok(true);
      case DENY => r := Ok(false);
      case ASK =>
        r := conn.ConfirmMessage(ASK_TEXT + line);
        if r.Ok? && r.value && config.HasPassword() {
          r := AskPassword();
        }
    }
  }

  // ---- which reply decides --------------------------------------------------------

  /** The reply to attempt i of a repeated dialog whose first attempt is answered by reply q. */
  function Attempt(replies: seq<seq<string>>, q: nat, i: nat): seq<string>
    requires q + 6 * i < |replies|
  {
    replies[q + 6 * i]
  }

  /** The reply is an entry, and it is this one. */
  ghost predicate IsEntry(b: seq<string>, entry: string) {
    IsReply(b) && Accepted(b) && Carries(b, entry)
  }

  ghost predicate IsCancel(b: seq<string>) { IsReply(b) && Cancelled(b) }

  ghost predicate IsWrong(b: seq<string>, accept: string -> bool) {
    exists e :: IsEntry(b, e) && !accept(e)
  }

  ghost predicate Wrong(replies: seq<seq<string>>, q: nat, i: nat, accept: string -> bool) {
    q + 6 * i < |replies| && IsWrong(Attempt(replies, q, i), accept)
  }

  /** The first attempt that is not a wrong entry is attempt i. */
  ghost predicate DecidedAt(replies: seq<seq<string>>, q: nat, i: nat, accept: string -> bool) {
    && q + 6 * i < |replies|
    && !Wrong(replies, q, i, accept)
    && forall j :: 0 <= j < i ==> Wrong(replies, q, j, accept)
  }

  lemma DecidedOnce(replies: seq<seq<string>>, q: nat, i: nat, j: nat, accept: string -> bool)
    requires DecidedAt(replies, q, i, accept) && DecidedAt(replies, q, j, accept)
    ensures i == j
  {
  }

  /** A successful reply is one entry. */
  lemma EntryIs(b: seq<string>, entry: string)
    requires IsReply(b) && Accepted(b)
    ensures IsEntry(b, entry) <==> entry == Answer(b).data
  {
    CarriesIff(b, entry);
  }

  lemma EntryIsNoCancel(b: seq<string>, entry: string, accept: string -> bool)
    requires IsEntry(b, entry)
    ensures !IsCancel(b)
    ensures IsWrong(b, accept) <==> !accept(entry)
  {
    AcceptedIff(b);
    EntryIs(b, entry);
    forall e | IsEntry(b, e) ensures e == entry {
      EntryIs(b, e);
    }
  }

  lemma CancelIsNoEntry(b: seq<string>, accept: string -> bool)
    requires IsCancel(b)
    ensures !Accepted(b) && !IsWrong(b, accept)
  {
    AcceptedIff(b);
  }

  /** Replies from..to all count as success. */
  ghost predicate SetUp(replies: seq<seq<string>>, from: nat, to: nat)
    requires AreReplies(replies)
  {
    to <= |replies| && forall k :: from <= k < to ==> Accepted(replies[k])
  }

  lemma SetUpIff(replies: seq<seq<string>>, from: nat, to: nat)
    requires AreReplies(replies) && to <= |replies|
    ensures SetUp(replies, from, to) <==> forall k :: from <= k < to ==> Answer(replies[k]).code == 0
  {
    forall k | from <= k < to ensures Accepted(replies[k]) <==> Answer(replies[k]).code == 0 {
      AcceptedIff(replies[k]);
    }
  }

  lemma {:induction false} SetupStarves(c: Conn, setup: seq<string>, replies: seq<seq<string>>, n: nat)
    requires AreReplies(replies) && HasRead(c, replies, n) && n + |setup| >= |replies|
    ensures Setup(c, setup).1.Ok? ==> Setup(c, setup).0.inbox == []
    decreases |setup|
  {
    if n == |replies| {
      assert replies[n..] == [];
    } else if setup != [] {
      ExchangeAdvances(c, setup[0], replies, n);
      SetupStarves(Exchange(c, setup[0]).0, setup[1..], replies, n + 1);
    }
  }

  /** Without enough replies a question cannot be answered. */
  lemma QuestionStarves(c: Conn, setup: seq<string>, query: string, replies: seq<seq<string>>, n: nat)
    requires AreReplies(replies) && HasRead(c, replies, n) && n + |setup| >= |replies|
    ensures Question(c, setup, query).1.Thrown?
  {
    SetupStarves(c, setup, replies, n);
  }

  /** A question is answered exactly when its set-up succeeds and there is a reply to it. */
  lemma QuestionReturnsIff(c: Conn, setup: seq<string>, query: string, replies: seq<seq<string>>, n: nat)
    requires AreReplies(replies) && HasRead(c, replies, n)
    ensures Question(c, setup, query).1.Ok? <==> n + |setup| < |replies| && SetUp(replies, n, n + |setup|)
    ensures Question(c, setup, query).1.Ok? ==>
              && HasRead(Question(c, setup, query).0, replies, n + |setup| + 1)
              && Question(c, setup, query).1.value == Answer(replies[n + |setup|])
              && Question(c, setup, query).0.sent == c.sent + Text(setup + [query])
  {
    hide Question, Text, Flatten, Answer, IsReply, Accepted, Receive;
    if n + |setup| < |replies| {
      SetUpIff(replies, n, n + |setup|);
      var j := QuestionAdvances(c, setup, query, replies, n);
      var commands := setup + [query];
      assert commands[..|setup| + 1] == commands;
    } else {
      QuestionStarves(c, setup, query, replies, n);
    }
  }

  function FirstAnswer(n: nat, error: string): nat { n + if error == "" then 4 else 5 }

  /** A reply that `getpin` or `confirm` returns on, rather than throwing. */
  ghost predicate Replied(b: seq<string>)
    requires IsReply(b)
  {
    Accepted(b) || Cancelled(b)
  }

  /** A single getpin: when it returns, and what. */
  lemma GetPinReads(c: Conn, d: Dialog, error: string, replies: seq<seq<string>>, n: nat)
    requires AreReplies(replies) && HasRead(c, replies, n)
    ensures var q := FirstAnswer(n, error);
            var (c', r) := GetPin(c, d.message, d.prompt, error);
            && (r.Ok? <==> q < |replies| && SetUp(replies, n, q) && Replied(replies[q]))
            && (r.Ok? ==> HasRead(c', replies, q + 1))
            && (r.Ok? ==> c'.sent == c.sent + Text(CommandsOf(DoGetPin(d.message, d.prompt, error))))
            && (r.Ok? ==> if r.value.cancelled then IsCancel(replies[q]) else IsEntry(replies[q], r.value.password))
  {
    var setup, q := PinSetup(d.message, d.prompt, error), FirstAnswer(n, error);
    assert n + |setup| == q;
    CommandsAre(d.message, d.prompt, error);
    QuestionReturnsIff(c, setup, GETPIN, replies, n);
    if q < |replies| {
      AcceptedIff(replies[q]);
      if Accepted(replies[q]) {
        EntryIs(replies[q], Answer(replies[q]).data);
      }
    }
  }

  lemma WrongMoves(replies: seq<seq<string>>, q: nat, j: nat, accept: string -> bool)
    ensures Wrong(replies, q + 6, j, accept) <==> Wrong(replies, q, j + 1, accept)
  {
    assert q + 6 * (j + 1) == q + 6 + 6 * j;
  }

  /** Without the first, wrong, attempt the rest of the dialog is decided alike. */
  lemma WrongShift(replies: seq<seq<string>>, q: nat, i: nat, accept: string -> bool)
    requires Wrong(replies, q, 0, accept)
    ensures DecidedAt(replies, q + 6, i, accept) <==> DecidedAt(replies, q, i + 1, accept)
    ensures q + 6 + 6 * i < |replies| ==> Attempt(replies, q, i + 1) == Attempt(replies, q + 6, i)
  {
    var next := q + 6;
    assert q + 6 * (i + 1) == next + 6 * i;
    WrongMoves(replies, q, i, accept);
    if DecidedAt(replies, next, i, accept) {
      forall j | 0 <= j < i + 1 ensures Wrong(replies, q, j, accept) {
        if j > 0 {
          WrongMoves(replies, q, j - 1, accept);
        }
      }
    }
    if DecidedAt(replies, q, i + 1, accept) {
      forall j | 0 <= j < i ensures Wrong(replies, next, j, accept) {
        WrongMoves(replies, q, j, accept);
      }
    }
  }

  /** What attempt i says the loop returned. */
  ghost predicate Explains(a: seq<string>, entered: Option<string>, accept: string -> bool) {
    match entered
    case None => IsCancel(a)
    case Some(pw) => IsEntry(a, pw) && accept(pw)
  }

  /** Attempt i explains the dialog's end. */
  ghost predicate EndsAt(replies: seq<seq<string>>, q: nat, i: nat, accept: string -> bool, entered: Option<string>) {
    DecidedAt(replies, q, i, accept) && Explains(Attempt(replies, q, i), entered, accept)
  }

  /** A round that ends the dialog, and one that does not. */
  lemma RoundDecides(c: Conn, d: Dialog, error: string, accept: string -> bool, replies: seq<seq<string>>, n: nat)
    requires AreReplies(replies) && HasRead(c, replies, n) && GetPin(c, d.message, d.prompt, error).1.Ok?
    ensures var (q, r) := (FirstAnswer(n, error), GetPin(c, d.message, d.prompt, error).1.value);
            if r.cancelled || accept(r.password)
            then EndsAt(replies, q, 0, accept, if r.cancelled then None else Some(r.password))
            else Wrong(replies, q, 0, accept) && HasRead(GetPin(c, d.message, d.prompt, error).0, replies, q + 1)
  {
    GetPinReads(c, d, error, replies, n);
    hide GetPin, IsEntry, IsCancel, IsWrong, IsReply, Accepted, Cancelled, SetUp;
    var (q, r) := (FirstAnswer(n, error), GetPin(c, d.message, d.prompt, error).1.value);
    assert Attempt(replies, q, 0) == replies[q];
    if r.cancelled {
      CancelIsNoEntry(replies[q], accept);
    } else {
      EntryIsNoCancel(replies[q], r.password, accept);
    }
  }

  /** The set-ups of rounds 0 to i all succeed. */
  ghost predicate Opened(replies: seq<seq<string>>, n: nat, q: nat, i: nat)
    requires AreReplies(replies)
  {
    SetUp(replies, n, q) && forall j :: 1 <= j <= i ==> SetUp(replies, q + 6 * j - 5, q + 6 * j)
  }

  lemma OpenedShift(replies: seq<seq<string>>, n: nat, q: nat, i: nat)
    requires AreReplies(replies) && SetUp(replies, n, q)
    ensures Opened(replies, n, q, i + 1) <==> Opened(replies, q + 1, q + 6, i)
  {
    hide SetUp;
    assert q + 6 * 1 - 5 == q + 1 && q + 6 * 1 == q + 6;
    if Opened(replies, q + 1, q + 6, i) {
      forall j | 1 <= j <= i + 1 ensures SetUp(replies, q + 6 * j - 5, q + 6 * j) {
        if j > 1 {
          assert SetUp(replies, q + 6 + 6 * (j - 1) - 5, q + 6 + 6 * (j - 1));
          assert q + 6 + 6 * (j - 1) == q + 6 * j;
        }
      }
    }
    if Opened(replies, n, q, i + 1) {
      assert SetUp(replies, q + 6 * 1 - 5, q + 6 * 1);
      forall j | 1 <= j <= i ensures SetUp(replies, q + 6 + 6 * j - 5, q + 6 + 6 * j) {
        assert SetUp(replies, q + 6 * (j + 1) - 5, q + 6 * (j + 1));
        assert q + 6 * (j + 1) == q + 6 + 6 * j;
      }
    }
  }

  /** The command lines of a dialog that ends at attempt i: every further attempt shows the retry text. */
  function DialogCommands(d: Dialog, error: string, i: nat): seq<string>
    decreases i
  {
    CommandsOf(DoGetPin(d.message, d.prompt, error)) + if i == 0 then [] else DialogCommands(d, d.retry, i - 1)
  }

  lemma SentAgain(a: string, b: string, c: string, first: seq<string>, rest: seq<string>)
    requires b == a + Text(first) && c == b + Text(rest)
    ensures c == a + Text(first + rest)
  {
    TextConcat(first, rest);
  }

  lemma EndsInside(replies: seq<seq<string>>, q: nat, i: nat, accept: string -> bool, entered: Option<string>)
    requires EndsAt(replies, q, i, accept, entered)
    ensures q + 6 * i < |replies|
  {
  }

  /** The loop as a whole: it ends at the first attempt that is not a wrong entry, and has sent the commands of
      just these attempts. */
  lemma {:induction false} AskUntilDecides(c: Conn, d: Dialog, error: string, accept: string -> bool,
                                           replies: seq<seq<string>>, n: nat) returns (i: nat)
    requires AreReplies(replies) && HasRead(c, replies, n) && d.retry != ""
    requires AskUntil(c, d, error, accept).1.Ok?
    ensures EndsAt(replies, FirstAnswer(n, error), i, accept, AskUntil(c, d, error, accept).1.value)
    ensures Opened(replies, n, FirstAnswer(n, error), i)
    ensures AskUntil(c, d, error, accept).0.sent == c.sent + Text(DialogCommands(d, error, i))
    decreases |c.inbox|
  {
    hide Text, CommandsOf, GetPin, DecidedAt, Wrong, Explains, HasRead, SetUp, Replied, IsEntry, IsCancel;
    var (q, g) := (FirstAnswer(n, error), GetPin(c, d.message, d.prompt, error));
    GetPinReads(c, d, error, replies, n);
    RoundDecides(c, d, error, accept, replies, n);
    if g.1.value.cancelled || accept(g.1.value.password) {
      i := 0;
      var commands := CommandsOf(DoGetPin(d.message, d.prompt, error));
      assert commands + [] == commands;
    } else {
      GetPinShrinks(c, d.message, d.prompt, error);
      var rest := AskUntilDecides(g.0, d, d.retry, accept, replies, q + 1);
      WrongShift(replies, q, rest, accept);
      EndsInside(replies, q + 6, rest, accept, AskUntil(c, d, error, accept).1.value);
      OpenedShift(replies, n, q, rest);
      i := rest + 1;
      SentAgain(c.sent, g.0.sent, AskUntil(c, d, error, accept).0.sent,
                CommandsOf(DoGetPin(d.message, d.prompt, error)), DialogCommands(d, d.retry, rest));
    }
  }

  ghost predicate ReturnsAt(replies: seq<seq<string>>, n: nat, q: nat, i: nat, accept: string -> bool)
    requires AreReplies(replies)
  {
    Opened(replies, n, q, i) && DecidedAt(replies, q, i, accept) && Replied(Attempt(replies, q, i))
  }

  /** The dialog's set-ups succeed up to the first attempt that is not a wrong entry, and that attempt gets a
      reply to return on. */
  ghost predicate DialogReturns(replies: seq<seq<string>>, n: nat, q: nat, accept: string -> bool)
    requires AreReplies(replies)
  {
    exists i: nat :: ReturnsAt(replies, n, q, i, accept)
  }

  /** The first round of a dialog that returns gets a reply. */
  lemma FirstRound(replies: seq<seq<string>>, n: nat, q: nat, i: nat, accept: string -> bool)
    requires AreReplies(replies) && ReturnsAt(replies, n, q, i, accept)
    ensures q < |replies| && SetUp(replies, n, q) && Replied(replies[q])
  {
    assert q + 6 * 0 == q;
    if i > 0 {
      assert Wrong(replies, q, 0, accept);
    }
  }

  lemma {:induction false} AskUntilReturns(c: Conn, d: Dialog, error: string, accept: string -> bool,
                                           replies: seq<seq<string>>, n: nat, i: nat)
    requires AreReplies(replies) && HasRead(c, replies, n) && d.retry != ""
    requires ReturnsAt(replies, n, FirstAnswer(n, error), i, accept)
    ensures AskUntil(c, d, error, accept).1.Ok?
    decreases i
  {
    hide GetPin, HasRead, SetUp, IsEntry, IsCancel, IsWrong;
    var q := FirstAnswer(n, error);
    FirstRound(replies, n, q, i, accept);
    GetPinReads(c, d, error, replies, n);
    RoundDecides(c, d, error, accept, replies, n);
    var (c', r) := GetPin(c, d.message, d.prompt, error);
    if r.value.cancelled || accept(r.value.password) {
    } else {
      assert i > 0;
      GetPinShrinks(c, d.message, d.prompt, error);
      WrongShift(replies, q, i - 1, accept);
      OpenedShift(replies, n, q, i - 1);
      hide Opened, DecidedAt, Attempt, Replied;
      AskUntilReturns(c', d, d.retry, accept, replies, q + 1, i - 1);
    }
  }

  /** Exactly when a repeated dialog returns instead of throwing. */
  lemma AskUntilReturnsIff(c: Conn, d: Dialog, accept: string -> bool, replies: seq<seq<string>>, n: nat)
    requires AreReplies(replies) && HasRead(c, replies, n) && d.retry != ""
    ensures AskUntil(c, d, "", accept).1.Ok? <==> DialogReturns(replies, n, n + 4, accept)
  {
    if AskUntil(c, d, "", accept).1.Ok? {
      var i := AskUntilDecides(c, d, "", accept, replies, n);
      var a := Attempt(replies, n + 4, i);
      assert Replied(a);
      assert ReturnsAt(replies, n, n + 4, i, accept);
    }
    if DialogReturns(replies, n, n + 4, accept) {
      var i: nat :| ReturnsAt(replies, n, n + 4, i, accept);
      AskUntilReturns(c, d, "", accept, replies, n, i);
    }
  }

  /** The first attempt that is not a wrong entry is a correct one, or a cancel. */
  ghost predicate CorrectEntry(replies: seq<seq<string>>, q: nat, accept: string -> bool) {
    exists i: nat, pw :: EndsAt(replies, q, i, accept, Some(pw))
  }

  ghost predicate CancelledEntry(replies: seq<seq<string>>, q: nat, accept: string -> bool) {
    exists i: nat :: EndsAt(replies, q, i, accept, None)
  }

  /** A dialog that returns has an entry exactly when a correct one comes first, and none exactly when a
      cancel comes first. */
  lemma DialogOutcome(c: Conn, d: Dialog, accept: string -> bool, replies: seq<seq<string>>, n: nat)
    requires AreReplies(replies) && HasRead(c, replies, n) && d.retry != ""
    requires AskUntil(c, d, "", accept).1.Ok?
    ensures AskUntil(c, d, "", accept).1.value.Some? <==> CorrectEntry(replies, n + 4, accept)
    ensures AskUntil(c, d, "", accept).1.value.None? <==> CancelledEntry(replies, n + 4, accept)
  {
    var q := n + 4;
    var i := AskUntilDecides(c, d, "", accept, replies, n);
    var a := Attempt(replies, q, i);
    forall k: nat | DecidedAt(replies, q, k, accept) ensures k == i {
      DecidedOnce(replies, q, i, k, accept);
    }
    hide AskUntil, DecidedAt, Attempt, IsEntry, IsCancel, IsWrong;
    match AskUntil(c, d, "", accept).1.value
    case Some(pw) =>
      EntryIsNoCancel(a, pw, accept);
      assert EndsAt(replies, q, i, accept, Some(pw));
    case None =>
      forall pw | IsEntry(a, pw) ensures false {
        EntryIsNoCancel(a, pw, accept);
      }
      assert EndsAt(replies, q, i, accept, None);
  }

  // ---- what counts as a correct entry ------------------------------------------------

  /** The dialog depends on which entries are accepted, not on how that is found out. */
  lemma SameAccept(replies: seq<seq<string>>, n: nat, q: nat, a1: string -> bool, a2: string -> bool)
    requires AreReplies(replies) && forall e :: a1(e) <==> a2(e)
    ensures CorrectEntry(replies, q, a1) <==> CorrectEntry(replies, q, a2)
    ensures CancelledEntry(replies, q, a1) <==> CancelledEntry(replies, q, a2)
    ensures DialogReturns(replies, n, q, a1) <==> DialogReturns(replies, n, q, a2)
    ensures forall i: nat, entered :: EndsAt(replies, q, i, a1, entered) <==> EndsAt(replies, q, i, a2, entered)
  {
    forall b ensures IsWrong(b, a1) <==> IsWrong(b, a2) {
      if IsWrong(b, a1) {
        var e :| IsEntry(b, e) && !a1(e);
        assert !a2(e);
      }
      if IsWrong(b, a2) {
        var e :| IsEntry(b, e) && !a2(e);
        assert !a1(e);
      }
    }
    hide IsWrong;
    forall j: nat ensures Wrong(replies, q, j, a1) <==> Wrong(replies, q, j, a2) {
      if q + 6 * j < |replies| {
        assert IsWrong(Attempt(replies, q, j), a1) <==> IsWrong(Attempt(replies, q, j), a2);
      }
    }
    hide Wrong;
    forall i: nat ensures DecidedAt(replies, q, i, a1) <==> DecidedAt(replies, q, i, a2) {
    }
    forall i: nat, entered
      ensures EndsAt(replies, q, i, a1, entered) <==> EndsAt(replies, q, i, a2, entered)
    {
      assert DecidedAt(replies, q, i, a1) <==> DecidedAt(replies, q, i, a2);
      if entered.Some? {
        assert a1(entered.value) <==> a2(entered.value);
      }
    }
    forall i: nat ensures ReturnsAt(replies, n, q, i, a1) <==> ReturnsAt(replies, n, q, i, a2) {
      assert DecidedAt(replies, q, i, a1) <==> DecidedAt(replies, q, i, a2);
    }
  }

  /** Exactly the entries whose HMAC is the stored hash pass the check. */
  lemma CheckIsHmac(hmac: Hmac, key: string, password: string, hash: seq<Byte>)
    ensures VerifyHmac(hmac, key, password, hash) <==> IsCorrect(hmac, key, password, hash)
  {
  }

  lemma PasswordCheck(s: Settings, hmac: Hmac, replies: seq<seq<string>>, n: nat, q: nat)
    requires AreReplies(replies)
    ensures var a1 := pw => VerifyHmac(hmac, s.key, pw, s.passwordHash);
            var a2 := pw => IsCorrect(hmac, s.key, pw, s.passwordHash);
            && (CorrectEntry(replies, q, a1) <==> CorrectEntry(replies, q, a2))
            && (CancelledEntry(replies, q, a1) <==> CancelledEntry(replies, q, a2))
            && (DialogReturns(replies, n, q, a1) <==> DialogReturns(replies, n, q, a2))
  {
    var a1 := pw => VerifyHmac(hmac, s.key, pw, s.passwordHash);
    var a2 := pw => IsCorrect(hmac, s.key, pw, s.passwordHash);
    forall e ensures a1(e) <==> a2(e) {
      CheckIsHmac(hmac, s.key, e, s.passwordHash);
    }
    SameAccept(replies, n, q, a1, a2);
  }

  ghost predicate EntersOther(b: seq<string>, right: string) {
    exists e :: IsEntry(b, e) && e != right
  }

  /** Attempt i enters `right`; the attempts before enter something else. */
  ghost predicate EnteredAt(replies: seq<seq<string>>, q: nat, i: nat, right: string) {
    && q + 6 * i < |replies| && IsEntry(Attempt(replies, q, i), right)
    && forall j :: 0 <= j < i ==> EntersOther(Attempt(replies, q, j), right)
  }

  /** `right` is entered, after entries that are all different from it. */
  ghost predicate EnteredFirst(replies: seq<seq<string>>, q: nat, right: string) {
    exists i: nat :: EnteredAt(replies, q, i, right)
  }

  /** If only `right` is accepted, a correct entry is `right`, entered after others only. */
  lemma OnlyRight(replies: seq<seq<string>>, q: nat, accept: string -> bool, right: string)
    requires AreReplies(replies) && forall e :: accept(e) <==> e == right
    ensures CorrectEntry(replies, q, accept) <==> EnteredFirst(replies, q, right)
  {
    hide IsEntry;
    forall b ensures IsWrong(b, accept) <==> EntersOther(b, right) {
      if IsWrong(b, accept) {
        var e :| IsEntry(b, e) && !accept(e);
        assert e != right;
      }
      if EntersOther(b, right) {
        var e :| IsEntry(b, e) && e != right;
        assert !accept(e);
      }
    }
    hide IsWrong, EntersOther;
    if CorrectEntry(replies, q, accept) {
      var i: nat, pw :| EndsAt(replies, q, i, accept, Some(pw));
      forall j | 0 <= j < i ensures EntersOther(Attempt(replies, q, j), right) {
        assert Wrong(replies, q, j, accept);
      }
      assert EnteredAt(replies, q, i, right);
    }
    if EnteredFirst(replies, q, right) {
      var i: nat :| EnteredAt(replies, q, i, right);
      EntryIsNoCancel(Attempt(replies, q, i), right, accept);
      forall j | 0 <= j < i ensures Wrong(replies, q, j, accept) {
        assert EntersOther(Attempt(replies, q, j), right);
      }
      assert !Wrong(replies, q, i, accept);
      assert EndsAt(replies, q, i, accept, Some(right));
    }
  }

  // ---- the callback -------------------------------------------------------------------

  lemma ConfirmReads(c: Conn, message: string, replies: seq<seq<string>>, n: nat)
    requires AreReplies(replies) && HasRead(c, replies, n)
    ensures Confirm(c, message).1.Ok? <==> n + 3 < |replies| && SetUp(replies, n, n + 3) && Replied(replies[n + 3])
    ensures Confirm(c, message).1.Ok? ==>
              && HasRead(Confirm(c, message).0, replies, n + 4)
              && Confirm(c, message).0.sent == c.sent + Text(CommandsOf(DoConfirm(message)))
              && (Confirm(c, message).1.value <==> Accepted(replies[n + 3]))
              && (!Confirm(c, message).1.value <==> Cancelled(replies[n + 3]))
  {
    CommandsAre(message, "", "");
    QuestionReturnsIff(c, ConfirmSetup(message), CONFIRM, replies, n);
    if n + 3 < |replies| {
      AcceptedIff(replies[n + 3]);
    }
  }

  /** Exactly when the callback returns instead of throwing: always if the rules allow or deny; if they ask,
      when the question is set up and answered, and the password dialog, if it is needed, returns. */
  lemma CallbackReturnsIff(s: Settings, hmac: Hmac, matcher: Matcher, line: string, c: Conn,
                           replies: seq<seq<string>>, n: nat)
    requires AreReplies(replies) && HasRead(c, replies, n)
    ensures Callback(s, hmac, matcher, line, c).1.Ok? <==>
            (ActionOf(s.rules.groups, s.rules.default, line, matcher) == ASK ==>
               && n + 3 < |replies| && SetUp(replies, n, n + 3)
               && (|| Cancelled(replies[n + 3])
                   || (Accepted(replies[n + 3]) &&
                       (s.passwordHash == [] ||
                        DialogReturns(replies, n + 4, n + 8, pw => IsCorrect(hmac, s.key, pw, s.passwordHash))))))
  {
    hide Confirm, HasRead, IsReply, AskUntil, VerifyHmac, SetUp, DialogReturns;
    if ActionOf(s.rules.groups, s.rules.default, line, matcher) == ASK {
      ConfirmReads(c, ASK_TEXT + line, replies, n);
      PasswordCheck(s, hmac, replies, n + 4, n + 8);
      var (c1, r) := Confirm(c, ASK_TEXT + line);
      if r.Ok? && r.value && s.passwordHash != [] {
        AskUntilReturnsIff(c1, PASSWORD_DIALOG, pw => VerifyHmac(hmac, s.key, pw, s.passwordHash), replies, n + 4);
      }
    }
  }

  /** Whenever the callback returns: ALLOW and DENY need no one; ASK is granted exactly when the reply to
      CONFIRM accepts and, if a password is set, the first entry that is not wrong is a correct one, that is,
      one whose HMAC is the stored hash. */
  lemma DecisionCharacterised(s: Settings, hmac: Hmac, matcher: Matcher, line: string, c: Conn,
                              replies: seq<seq<string>>, n: nat)
    requires AreReplies(replies) && HasRead(c, replies, n)
    requires Callback(s, hmac, matcher, line, c).1.Ok?
    ensures var accept := pw => IsCorrect(hmac, s.key, pw, s.passwordHash);
            var granted := Callback(s, hmac, matcher, line, c).1.value;
            match ActionOf(s.rules.groups, s.rules.default, line, matcher)
            case ALLOW => granted
            case DENY => !granted
            case ASK =>
              n + 3 < |replies| &&
              (granted <==>
                && Accepted(replies[n + 3])
                && (s.passwordHash == [] || CorrectEntry(replies, n + 8, accept))) &&
              (!granted <==>
                || Cancelled(replies[n + 3])
                || (Accepted(replies[n + 3]) && s.passwordHash != [] && CancelledEntry(replies, n + 8, accept)))
  {
    hide Confirm, HasRead, CorrectEntry, CancelledEntry, IsReply, AskUntil, VerifyHmac, SetUp;
    if ActionOf(s.rules.groups, s.rules.default, line, matcher) == ASK {
      ConfirmReads(c, ASK_TEXT + line, replies, n);
      AcceptedIff(replies[n + 3]);
      hide Accepted, Cancelled;
      PasswordCheck(s, hmac, replies, n + 4, n + 8);
      var (c1, r) := Confirm(c, ASK_TEXT + line);
      if r.value && s.passwordHash != [] {
        DialogOutcome(c1, PASSWORD_DIALOG, pw => VerifyHmac(hmac, s.key, pw, s.passwordHash), replies, n + 4);
      }
    }
  }

  /** What a callback that asks and returns has put to the user: the question about the line, and if that was
      accepted and a password is set, the password dialog up to the attempt that decided. */
  lemma CallbackAsks(s: Settings, hmac: Hmac, matcher: Matcher, line: string, c: Conn,
                     replies: seq<seq<string>>, n: nat) returns (i: nat)
    requires AreReplies(replies) && HasRead(c, replies, n)
    requires Callback(s, hmac, matcher, line, c).1.Ok?
    requires ActionOf(s.rules.groups, s.rules.default, line, matcher) == ASK
    ensures n + 3 < |replies|
    ensures var question := CommandsOf(DoConfirm("Do you allow the following system call?%0a%0a" + line));
            var dialog := Dialog("Enter the user decision password to continue.", "password: ", "Incorrect password");
            var c' := Callback(s, hmac, matcher, line, c).0;
            if Accepted(replies[n + 3]) && s.passwordHash != [] then
              && c'.sent == c.sent + Text(question + DialogCommands(dialog, "", i))
              && DecidedAt(replies, n + 8, i, pw => IsCorrect(hmac, s.key, pw, s.passwordHash))
            else c'.sent == c.sent + Text(question)
  {
    hide Confirm, HasRead, IsReply, AskUntil, VerifyHmac, SetUp, Text, CommandsOf, DialogCommands, IsWrong;
    i := 0;
    ConfirmReads(c, ASK_TEXT + line, replies, n);
    var (c1, r) := Confirm(c, ASK_TEXT + line);
    if r.value && s.passwordHash != [] {
      var a1 := pw => VerifyHmac(hmac, s.key, pw, s.passwordHash);
      var a2 := pw => IsCorrect(hmac, s.key, pw, s.passwordHash);
      i := AskUntilDecides(c1, PASSWORD_DIALOG, "", a1, replies, n + 4);
      forall e ensures a1(e) <==> a2(e) {
        CheckIsHmac(hmac, s.key, e, s.passwordHash);
      }
      SameAccept(replies, n + 4, n + 8, a1, a2);
      SentAgain(c.sent, c1.sent, AskUntil(c1, PASSWORD_DIALOG, "", a1).0.sent,
                CommandsOf(DoConfirm(ASK_TEXT + line)), DialogCommands(PASSWORD_DIALOG, "", i));
    }
  }

  /** No other text has the same HMAC under this key. */
  ghost predicate NoCollision(hmac: Hmac, key: string, text: string) {
    forall other :: hmac(key, other) == hmac(key, text) ==> other == text
  }

  /** With the password that was set, and no collision with it: an accepted question is granted exactly when
      that password is entered, after other entries only. */
  lemma PasswordDecides(s: Settings, hmac: Hmac, matcher: Matcher, line: string, c: Conn,
                        replies: seq<seq<string>>, n: nat, password: string)
    requires AreReplies(replies) && HasRead(c, replies, n)
    requires Callback(s, hmac, matcher, line, c).1.Ok?
    requires ActionOf(s.rules.groups, s.rules.default, line, matcher) == ASK
    requires hmac(s.key, password).Some? && s.passwordHash == hmac(s.key, password).value
    requires NoCollision(hmac, s.key, password)
    ensures n + 3 < |replies|
    ensures Callback(s, hmac, matcher, line, c).1.value <==>
            Accepted(replies[n + 3]) && EnteredFirst(replies, n + 8, password)
  {
    var accept := pw => IsCorrect(hmac, s.key, pw, s.passwordHash);
    DecisionCharacterised(s, hmac, matcher, line, c, replies, n);
    assert s.passwordHash != [] by {
      var digest: Digest := hmac(s.key, password).value;
      assert |digest| == HASH_SIZE;
    }
    hide Callback, HasRead, IsReply, CorrectEntry, EnteredFirst;
    OnlyRight(replies, n + 8, accept, password);
  }

  // ---- from the words of the file ------------------------------------------------------

  lemma {:induction false} SetupGrows(c: Conn, commands: seq<string>)
    ensures c.sent <= Setup(c, commands).0.sent
    decreases |commands|
  {
    if commands == [] {
    } else {
      SetupGrows(Exchange(c, commands[0]).0, commands[1..]);
    }
  }

  lemma ConfirmAsks(c: Conn, message: string)
    ensures c.sent + "SETDESC " + message + "\n" <= Confirm(c, message).0.sent
  {
    var setup := ConfirmSetup(message);
    SetupGrows(Exchange(c, setup[0]).0, setup[1..]);
    SetupCons(c, setup);
    assert c.sent + ("SETDESC " + message) + "\n" == c.sent + "SETDESC " + message + "\n";
  }

  lemma QuestionGrows(c: Conn, setup: seq<string>, query: string)
    ensures c.sent <= Question(c, setup, query).0.sent
  {
    SetupGrows(c, setup);
  }

  lemma {:induction false} AskUntilGrows(c: Conn, d: Dialog, error: string, accept: string -> bool)
    ensures c.sent <= AskUntil(c, d, error, accept).0.sent
    decreases |c.inbox|
  {
    var (c', r) := GetPin(c, d.message, d.prompt, error);
    QuestionGrows(c, PinSetup(d.message, d.prompt, error), GETPIN);
    if r.Thrown? || r.value.cancelled || accept(r.value.password) {
    } else {
      GetPinShrinks(c, d.message, d.prompt, error);
      AskUntilGrows(c', d, d.retry, accept);
    }
  }

  /** From the words in the file to the decision, under any settings with the rules that were loaded from it:
      a line for which the file says "allow" is granted and one for which it says "deny" is refused, without a
      word to the server, and one for which it says "ask" is put to the user. */
  lemma WordsRule(raw: RawConfig, loaded: Settings, s: Settings, hmac: Hmac, matcher: Matcher, line: string, c: Conn,
                  word: string)
    requires Describes(raw, loaded) && s.rules == loaded.rules && Decides(raw, line, matcher, word)
    ensures word == "allow" ==> Callback(s, hmac, matcher, line, c) == (c, Ok(true))
    ensures word == "deny" ==> Callback(s, hmac, matcher, line, c) == (c, Ok(false))
    ensures word == "ask" ==>
              c.sent + "SETDESC " + ("Do you allow the following system call?%0a%0a" + line) + "\n" <=
              Callback(s, hmac, matcher, line, c).0.sent
  {
    WordDecides(raw, loaded, line, matcher, word);
    var action := ActionOf(s.rules.groups, s.rules.default, line, matcher);
    WordExact(word, action);
    hide Confirm, AskUntil;
    if action == ASK {
      var message := ASK_TEXT + line;
      ConfirmAsks(c, message);
      AskUntilGrows(Confirm(c, message).0, PASSWORD_DIALOG, "",
                    pw => VerifyHmac(hmac, s.key, pw, s.passwordHash));
    }
  }
}
