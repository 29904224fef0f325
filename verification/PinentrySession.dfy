/**
  Lockstep of the pinentry conversation. `replies` lists what the server says:
  the greeting, then its reply to each command line it receives. The client
  cannot see where one reply ends except by reading it.
 */
module PinentrySession {
  import opened Pinentry
  import opened PinentryReplies

  // ---- command lines ----------------------------------------------------------

  function Text(commands: seq<string>): string
    decreases |commands|
  {
    if commands == [] then "" else commands[0] + "\n" + Text(commands[1..])
  }

  lemma {:induction false} TextConcat(a: seq<string>, b: seq<string>)
    ensures Text(a + b) == Text(a) + Text(b)
    decreases |a|
  {
    if a == [] {
      assert a + b == b;
    } else {
      assert (a + b)[1..] == a[1..] + b;
      TextConcat(a[1..], b);
      assert a[0] + "\n" + (Text(a[1..]) + Text(b)) == (a[0] + "\n" + Text(a[1..])) + Text(b);
    }
  }

  function Newlines(s: string): nat {
    if s == [] then 0 else (if s[0] == '\n' then 1 else 0) + Newlines(s[1..])
  }

  function NewlinesIn(commands: seq<string>): nat
    decreases |commands|
  {
    if commands == [] then 0 else Newlines(commands[0]) + NewlinesIn(commands[1..])
  }

  /** The command lines the server receives; `partial` is the unfinished line so far. */
  function Received(s: string, partial: string): seq<string>
    decreases |s|
  {
    if s == [] then []
    else if s[0] == '\n' then [partial] + Received(s[1..], [])
    else Received(s[1..], partial + [s[0]])
  }

  lemma {:induction false} NewlinesConcat(a: string, b: string)
    ensures Newlines(a + b) == Newlines(a) + Newlines(b)
    decreases |a|
  {
    if a == [] {
      assert a + b == b;
    } else {
      assert (a + b)[1..] == a[1..] + b;
      NewlinesConcat(a[1..], b);
    }
  }

  lemma {:induction false} ReceivedCount(s: string, partial: string)
    ensures |Received(s, partial)| == Newlines(s)
    decreases |s|
  {
    if s == [] {
    } else {
      ReceivedCount(s[1..], if s[0] == '\n' then [] else partial + [s[0]]);
    }
  }

  lemma {:induction false} NewlinesOfText(commands: seq<string>)
    ensures Newlines(Text(commands)) == |commands| + NewlinesIn(commands)
    decreases |commands|
  {
    if commands == [] {
    } else {
      NewlinesConcat(commands[0] + "\n", Text(commands[1..]));
      NewlinesConcat(commands[0], "\n");
      NewlinesOfText(commands[1..]);
    }
  }

  lemma {:induction false} NoNewlines(s: string)
    ensures Newlines(s) == 0 <==> '\n' !in s
    decreases |s|
  {
    if s == [] {
    } else {
      NoNewlines(s[1..]);
    }
  }

  lemma {:induction false} NoNewlinesIn(commands: seq<string>)
    ensures NewlinesIn(commands) == 0 <==> forall i :: 0 <= i < |commands| ==> '\n' !in commands[i]
    decreases |commands|
  {
    if commands == [] {
    } else {
      NoNewlines(commands[0]);
      NoNewlinesIn(commands[1..]);
      assert forall i :: 0 < i < |commands| ==> commands[i] == commands[1..][i - 1];
    }
  }

  lemma {:induction false} ReceivedLine(command: string, rest: string, partial: string)
    requires '\n' !in command
    ensures Received(command + "\n" + rest, partial) == [partial + command] + Received(rest, [])
    decreases |command|
  {
    var s := command + "\n" + rest;
    if command == [] {
      assert s[1..] == rest && partial + command == partial;
    } else {
      assert s[1..] == command[1..] + "\n" + rest;
      ReceivedLine(command[1..], rest, partial + [command[0]]);
      assert partial + [command[0]] + command[1..] == partial + command;
    }
  }

  /** Newline-free commands arrive as they were sent. */
  lemma {:induction false} ReceivedText(commands: seq<string>)
    requires forall i :: 0 <= i < |commands| ==> '\n' !in commands[i]
    ensures Received(Text(commands), []) == commands
    decreases |commands|
  {
    if commands == [] {
    } else {
      ReceivedLine(commands[0], Text(commands[1..]), []);
      assert forall i :: 0 <= i < |commands| - 1 ==> commands[1..][i] == commands[i + 1];
      ReceivedText(commands[1..]);
      assert [] + commands[0] == commands[0] && commands == [commands[0]] + commands[1..];
    }
  }

  // ---- one operation --------------------------------------------------------------

  /** From c to c' the client sent commands[..j], and read one reply for each. */
  ghost predicate Advanced(c: Conn, c': Conn, replies: seq<seq<string>>, n: nat, commands: seq<string>, j: nat) {
    j <= |commands| && HasRead(c', replies, n + j) && c'.sent == c.sent + Text(commands[..j])
  }

  lemma ExchangeAdvances(c: Conn, command: string, replies: seq<seq<string>>, n: nat)
    requires AreReplies(replies) && HasRead(c, replies, n) && n < |replies|
    ensures Exchange(c, command).1 == Ok(Answer(replies[n]))
    ensures Advanced(c, Exchange(c, command).0, replies, n, [command], 1)
  {
    ReadNext(c, replies, n);
    assert [command][..1] == [command] && [command][1..] == [];
    assert c.sent + command + "\n" == c.sent + Text([command]);
  }

  /** Steps that follow one another. */
  lemma AdvancedTrans(c: Conn, c1: Conn, c2: Conn, replies: seq<seq<string>>, n: nat, a: seq<string>, b: seq<string>, j: nat)
    requires Advanced(c, c1, replies, n, a, |a|) && Advanced(c1, c2, replies, n + |a|, b, j)
    ensures Advanced(c, c2, replies, n, a + b, |a| + j)
  {
    assert (a + b)[..|a| + j] == a + b[..j] && a[..|a|] == a;
    TextConcat(a, b[..j]);
  }

  lemma AdvancedExtend(c: Conn, c': Conn, replies: seq<seq<string>>, n: nat, a: seq<string>, b: seq<string>, j: nat)
    requires Advanced(c, c', replies, n, a, j)
    ensures Advanced(c, c', replies, n, a + b, j)
  {
    assert (a + b)[..j] == a[..j];
  }

  lemma NothingAdvances(c: Conn, replies: seq<seq<string>>, n: nat)
    requires HasRead(c, replies, n)
    ensures Advanced(c, c, replies, n, [], 0)
  {
    assert Text([]) == "" && c.sent + "" == c.sent;
  }

  /** A set-up succeeds exactly when each of its own replies does; it stops at the first that does not. */
  lemma {:induction false} SetupAdvances(c: Conn, commands: seq<string>, replies: seq<seq<string>>, n: nat) returns (j: nat)
    requires AreReplies(replies) && HasRead(c, replies, n) && n + |commands| <= |replies|
    ensures Advanced(c, Setup(c, commands).0, replies, n, commands, j)
    ensures Setup(c, commands).1.Ok? <==> forall i :: n <= i < n + |commands| ==> Answer(replies[i]).code == 0
    ensures if Setup(c, commands).1.Ok? then j == |commands|
            else j > 0 && Answer(replies[n + j - 1]).code != 0 &&
                 Setup(c, commands).1.failure == Protocol(Answer(replies[n + j - 1]).code, Answer(replies[n + j - 1]).data)
    decreases |commands|
  {
    hide Exchange, Flatten, Text;
    if commands == [] {
      j := 0;
      NothingAdvances(c, replies, n);
    } else {
      ExchangeAdvances(c, commands[0], replies, n);
      var c1 := Exchange(c, commands[0]).0;
      assert commands == [commands[0]] + commands[1..];
      if Answer(replies[n]).code != 0 {
        j := 1;
        AdvancedExtend(c, c1, replies, n, [commands[0]], commands[1..], 1);
      } else {
        var j' := SetupAdvances(c1, commands[1..], replies, n + 1);
        j := j' + 1;
        AdvancedTrans(c, c1, Setup(c, commands).0, replies, n, [commands[0]], commands[1..], j');
      }
    }
  }

  /** A question is answered by its own reply, once every set-up command has succeeded. */
  lemma QuestionAdvances(c: Conn, setup: seq<string>, query: string, replies: seq<seq<string>>, n: nat) returns (j: nat)
    requires AreReplies(replies) && HasRead(c, replies, n) && n + |setup| < |replies|
    ensures Advanced(c, Question(c, setup, query).0, replies, n, setup + [query], j)
    ensures j > 0
    ensures if forall i :: n <= i < n + |setup| ==> Answer(replies[i]).code == 0
            then j == |setup| + 1 && Question(c, setup, query).1 == Ok(Answer(replies[n + |setup|]))
            else Question(c, setup, query).1.Thrown? && Question(c, setup, query).1.failure.Protocol?
  {
    j := SetupAdvances(c, setup, replies, n);
    var (c1, r) := Setup(c, setup);
    if r.Thrown? {
      AdvancedExtend(c, c1, replies, n, setup, [query], j);
    } else {
      ExchangeAdvances(c1, query, replies, n + |setup|);
      AdvancedTrans(c, c1, Exchange(c1, query).0, replies, n, setup, [query], 1);
      j := |setup| + 1;
    }
  }

  // ---- lockstep -------------------------------------------------------------------

  /** The client has read the greeting and one reply for each command line the server received. */
  ghost predicate InLockstep(c: Conn, replies: seq<seq<string>>) {
    HasRead(c, replies, |Received(c.sent, [])| + 1)
  }

  lemma {:induction false} FlattenShrinks(replies: seq<seq<string>>, m: nat, n: nat)
    requires AreReplies(replies) && m < n <= |replies|
    ensures |Flatten(replies[n..])| < |Flatten(replies[m..])|
    decreases n - m
  {
    assert replies[m..][1..] == replies[m + 1..];
    if m + 1 == n {
    } else {
      FlattenShrinks(replies, m + 1, n);
    }
  }

  lemma ReadOnce(c: Conn, replies: seq<seq<string>>, m: nat, n: nat)
    requires AreReplies(replies) && HasRead(c, replies, m) && HasRead(c, replies, n)
    ensures m == n
  {
    if m < n {
      FlattenShrinks(replies, m, n);
    } else if n < m {
      FlattenShrinks(replies, n, m);
    }
  }

  lemma ReadExactly(c: Conn, replies: seq<seq<string>>, m: nat, n: nat)
    requires AreReplies(replies) && HasRead(c, replies, m)
    ensures HasRead(c, replies, n) <==> m == n
  {
    if HasRead(c, replies, n) {
      ReadOnce(c, replies, m, n);
    }
  }

  /** The server is ahead of the client by exactly the newlines inside the commands sent. */
  lemma LockstepIff(c: Conn, c': Conn, replies: seq<seq<string>>, commands: seq<string>, j: nat)
    requires AreReplies(replies) && InLockstep(c, replies)
    requires Advanced(c, c', replies, |Received(c.sent, [])| + 1, commands, j)
    ensures |Received(c'.sent, [])| == |Received(c.sent, [])| + j + NewlinesIn(commands[..j])
    ensures InLockstep(c', replies) <==> NewlinesIn(commands[..j]) == 0
  {
    var n := |Received(c.sent, [])| + 1;
    ReceivedCount(c.sent, []);
    ReceivedCount(c'.sent, []);
    NewlinesConcat(c.sent, Text(commands[..j]));
    NewlinesOfText(commands[..j]);
    ReadExactly(c', replies, n + j, |Received(c'.sent, [])| + 1);
  }

  /** What arrives of text that follows complete lines. */
  lemma {:induction false} ReceivedAfter(a: string, b: string, partial: string)
    requires a != [] && a[|a| - 1] == '\n'
    ensures Received(a + b, partial) == Received(a, partial) + Received(b, [])
    decreases |a|
  {
    assert (a + b)[0] == a[0] && (a + b)[1..] == a[1..] + b;
    if |a| == 1 {
      assert a[1..] + b == b && Received(a[1..], []) == [];
    } else {
      assert a[1..][|a| - 2] == '\n';
      ReceivedAfter(a[1..], b, if a[0] == '\n' then [] else partial + [a[0]]);
    }
  }

  /** Only whole lines have been sent. */
  predicate WholeLines(s: string) { s == [] || s[|s| - 1] == '\n' }

  /** Newline-free commands sent after whole lines are exactly what the server receives next. */
  lemma SentIsReceived(c: Conn, c': Conn, commands: seq<string>)
    requires WholeLines(c.sent) && c'.sent == c.sent + Text(commands)
    requires forall i :: 0 <= i < |commands| ==> '\n' !in commands[i]
    ensures Received(c'.sent, []) == Received(c.sent, []) + commands
  {
    var text := Text(commands);
    ReceivedText(commands);
    assert Received([], []) == [];
    hide Text, Received;
    if c.sent == [] {
      assert [] + text == text && [] + commands == commands;
    } else {
      ReceivedAfter(c.sent, text, []);
    }
  }

  /** Newlines among the first commands of an operation whose only open text is its message. */
  lemma MessageNewlines(commands: seq<string>, prefix: string, message: string, j: nat)
    requires 0 < j <= |commands| && commands[0] == prefix + message && '\n' !in prefix
    requires forall i :: 0 < i < |commands| ==> '\n' !in commands[i]
    ensures NewlinesIn(commands[..j]) == 0 <==> '\n' !in message
    ensures '\n' !in message ==> NewlinesIn(commands) == 0
  {
    NoNewlinesIn(commands[..j]);
    NoNewlinesIn(commands);
    assert commands[..j][0] == commands[0];
    assert '\n' in message ==> '\n' in commands[0];
    assert '\n' in commands[0] ==> '\n' in prefix || '\n' in message;
  }

  /** An operation in lockstep whose only open text is its message: lockstep is kept exactly when the
      message has no newline; then the server receives just these commands, and the operation's result is
      the reply to its own question. */
  lemma QuestionOwnAnswer(c: Conn, setup: seq<string>, query: string, prefix: string, message: string,
                          replies: seq<seq<string>>)
    requires AreReplies(replies) && InLockstep(c, replies) && WholeLines(c.sent)
    requires |Received(c.sent, [])| + 1 + |setup| < |replies|
    requires setup != [] && setup[0] == prefix + message && '\n' !in prefix && '\n' !in query
    requires forall i :: 0 < i < |setup| ==> '\n' !in setup[i]
    ensures InLockstep(Question(c, setup, query).0, replies) <==> '\n' !in message
    ensures var (c', r) := Question(c, setup, query);
            '\n' !in message && (r.Ok? || !r.failure.Protocol?) ==>
              && Received(c'.sent, []) == Received(c.sent, []) + setup + [query]
              && r == Ok(Answer(replies[|Received(c.sent, [])| + 1 + |setup|]))
  {
    var n := |Received(c.sent, [])| + 1;
    var commands := setup + [query];
    var (c', r) := Question(c, setup, query);
    var j := QuestionAdvances(c, setup, query, replies, n);
    MessageNewlines(commands, prefix, message, j);
    LockstepIff(c, c', replies, commands, j);
    if '\n' !in message && (r.Ok? || !r.failure.Protocol?) {
      assert commands[..j] == commands;
      NoNewlinesIn(commands);
      SentIsReceived(c, c', commands);
      assert Received(c.sent, []) + setup + [query] == Received(c.sent, []) + commands;
    }
  }

  datatype Op =
    | DoConfirm(message: string)
    | DoGetPin(message: string, prompt: string, error: string)
    | DoClose

  /** The command lines of an operation. */
  function CommandsOf(op: Op): seq<string> {
    match op
    case DoConfirm(m) => ["SETDESC " + m, "SETOK Allow", "SETCANCEL Deny", "CONFIRM"]
    case DoGetPin(m, p, e) =>
      if e == "" then ["SETDESC " + m, "SETPROMPT " + p, "SETOK OK", "SETCANCEL Cancel", "GETPIN"]
      else ["SETDESC " + m, "SETPROMPT " + p, "SETOK OK", "SETCANCEL Cancel", "SETERROR " + e, "GETPIN"]
    case DoClose => ["BYE"]
  }

  lemma CommandsAre(m: string, p: string, e: string)
    ensures ConfirmSetup(m) + [CONFIRM] == CommandsOf(DoConfirm(m))
    ensures PinSetup(m, p, e) + [GETPIN] == CommandsOf(DoGetPin(m, p, e))
    ensures [BYE] == CommandsOf(DoClose)
  {
  }

  lemma Appended(received: seq<string>, setup: seq<string>, query: string, commands: seq<string>)
    requires setup + [query] == commands
    ensures received + setup + [query] == received + commands
    ensures |commands| == |setup| + 1 && (received + commands)[|received| + |setup|] == query
  {
  }

  /** `confirm` returns the answer to its own CONFIRM line: true exactly when that reply's closing line is
      OK or an ERR line that names no error, false exactly when it is the ERR line of a cancel. */
  lemma ConfirmOwnAnswer(c: Conn, message: string, replies: seq<seq<string>>)
    requires AreReplies(replies) && InLockstep(c, replies) && WholeLines(c.sent)
    requires |Received(c.sent, [])| + 4 < |replies|
    ensures InLockstep(Confirm(c, message).0, replies) <==> '\n' !in message
    ensures var k := |Received(c.sent, [])|;
            var (c', r) := Confirm(c, message);
            '\n' !in message && r.Ok? ==>
              && Received(c'.sent, []) == Received(c.sent, []) + CommandsOf(DoConfirm(message))
              && Received(c'.sent, [])[k + 3] == "CONFIRM"
              && (r.value <==> Accepted(replies[k + 4]))
              && (!r.value <==> Cancelled(replies[k + 4]))
  {
    var received, setup := Received(c.sent, []), ConfirmSetup(message);
    QuestionOwnAnswer(c, setup, CONFIRM, "SETDESC ", message, replies);
    AcceptedIff(replies[|received| + 4]);
    CommandsAre(message, "", "");
    assert Confirm(c, message) == (Question(c, setup, CONFIRM).0, Confirmed(Question(c, setup, CONFIRM).1));
    hide Received, InLockstep, Question, Confirm, ConfirmSetup, CommandsOf, IsReply, Accepted, Cancelled, Answer;
    Appended(received, setup, CONFIRM, CommandsOf(DoConfirm(message)));
  }

  /** That true means the server said OK holds exactly when an ERR line, if there was one, names an error. */
  lemma ConfirmMeansOkIff(c: Conn, message: string, replies: seq<seq<string>>)
    requires AreReplies(replies) && InLockstep(c, replies) && WholeLines(c.sent) && '\n' !in message
    requires |Received(c.sent, [])| + 4 < |replies| && Confirm(c, message).1.Ok?
    ensures var closing := Closing(replies[|Received(c.sent, [])| + 4]);
            (Confirm(c, message).1.value <==> Okay(closing)) <==> ("ERR " <= closing ==> NamesError(closing))
  {
    var b := replies[|Received(c.sent, [])| + 4];
    ConfirmOwnAnswer(c, message, replies);
    AcceptedIff(b);
    ClosingKinds(Closing(b));
    hide Confirm, Received, InLockstep, Accepted, Cancelled, NamesError;
    assert Okay(Closing(b)) ==> Closing(b)[0] == 'O';
  }

  lemma ThreeOks(c: Conn, message: string, closing: string)
    requires c.inbox == ["OK", "OK", "OK", closing]
    ensures Setup(c, ConfirmSetup(message)).1.Ok?
    ensures Setup(c, ConfirmSetup(message)).0.inbox == [closing]
    ensures Confirm(c, message).1 == Confirmed(Receive([closing], "").0)
  {
    hide ErrorCode, ErrorText, IsBareErr;
    var setup := ConfirmSetup(message);
    SetupCons(c, setup);
    SetupCons(Exchange(c, setup[0]).0, setup[1..]);
    assert setup[1..][1..] == [setup[2]] && [setup[2]][1..] == [];
  }

  /** A refusal in words only. */
  lemma RefusedIsAccepted()
    ensures IsReply(["ERR refused"]) && Accepted(["ERR refused"])
  {
    var e := ErrLine("", "", "", "refused");
    assert e.blanks + (e.sign + (e.digits + e.tail)) == "refused" && e.digits + e.tail == "refused";
    assert Spells("ERR refused", e);
    assert HasCode("ERR refused");
  }

  /** A refusal that grants the call. */
  lemma UnreadableErrorConfirms(c: Conn, message: string)
    requires c.inbox == ["OK", "OK", "OK", "ERR refused"]
    ensures Confirm(c, message).1 == Ok(true)
  {
    RefusedIsAccepted();
    ThreeOks(c, message, "ERR refused");
    AcceptedIff(["ERR refused"]);
    ReceiveReply(["ERR refused"], [], "");
  }

  lemma PinSetupFacts(message: string, prompt: string, error: string)
    requires '\n' !in prompt && '\n' !in error
    ensures var setup := PinSetup(message, prompt, error);
            && |setup| == (if error == "" then 4 else 5) && setup[0] == "SETDESC " + message
            && forall i :: 0 < i < |setup| ==> '\n' !in setup[i]
  {
  }

  /** `getpin` returns what was entered in reply to its own GETPIN line. */
  lemma GetPinOwnAnswer(c: Conn, message: string, prompt: string, error: string, replies: seq<seq<string>>)
    requires AreReplies(replies) && InLockstep(c, replies) && WholeLines(c.sent) && '\n' !in prompt && '\n' !in error
    requires |Received(c.sent, [])| + 6 < |replies|
    ensures InLockstep(GetPin(c, message, prompt, error).0, replies) <==> '\n' !in message
    ensures var commands := CommandsOf(DoGetPin(message, prompt, error));
            var k := |Received(c.sent, [])| + |commands|;
            var (c', r) := GetPin(c, message, prompt, error);
            '\n' !in message && r.Ok? ==>
              && Received(c'.sent, []) == Received(c.sent, []) + commands
              && Received(c'.sent, [])[k - 1] == "GETPIN"
              && (!r.value.cancelled <==> Accepted(replies[k]))
              && (r.value.cancelled <==> Cancelled(replies[k]))
              && (if r.value.cancelled then r.value.password == "" else Carries(replies[k], r.value.password))
  {
    var setup := PinSetup(message, prompt, error);
    var b := replies[|Received(c.sent, [])| + 1 + |setup|];
    PinSetupFacts(message, prompt, error);
    CommandsAre(message, prompt, error);
    QuestionOwnAnswer(c, setup, GETPIN, "SETDESC ", message, replies);
    AcceptedIff(b);
    if Accepted(b) {
      CarriesIff(b, Answer(b).data);
    }
    var q := Question(c, setup, GETPIN);
    assert GetPin(c, message, prompt, error) == (q.0, Entered(q.1));
    hide Received, InLockstep, Question, GetPin, PinSetup, CommandsOf, IsReply, Accepted, Cancelled, Answer, Carries;
    Appended(Received(c.sent, []), setup, GETPIN, CommandsOf(DoGetPin(message, prompt, error)));
  }

  // ---- whole sessions -------------------------------------------------------------

  /** The connection after an operation, and whether it threw. */
  function Perform(c: Conn, op: Op): (Conn, bool) {
    match op
    case DoConfirm(m) => var r := Confirm(c, m); (r.0, r.1.Thrown?)
    case DoGetPin(m, p, e) => var r := GetPin(c, m, p, e); (r.0, r.1.Thrown?)
    case DoClose => var r := Close(c); (r.0, r.1.Thrown?)
  }

  /** A session goes on until an operation throws. */
  function PerformAll(c: Conn, ops: seq<Op>): Conn
    decreases |ops|
  {
    if ops == [] then c
    else
      var (c', threw) := Perform(c, ops[0]);
      if threw then c' else PerformAll(c', ops[1..])
  }

  function AllCommands(ops: seq<Op>): seq<string>
    decreases |ops|
  {
    if ops == [] then [] else CommandsOf(ops[0]) + AllCommands(ops[1..])
  }

  lemma PerformAdvances(c: Conn, op: Op, replies: seq<seq<string>>, n: nat) returns (j: nat)
    requires AreReplies(replies) && HasRead(c, replies, n) && n + |CommandsOf(op)| <= |replies|
    ensures Advanced(c, Perform(c, op).0, replies, n, CommandsOf(op), j)
    ensures !Perform(c, op).1 ==> j == |CommandsOf(op)|
  {
    match op
    case DoConfirm(m) =>
      CommandsAre(m, "", "");
      j := QuestionAdvances(c, ConfirmSetup(m), CONFIRM, replies, n);
    case DoGetPin(m, p, e) =>
      CommandsAre(m, p, e);
      j := QuestionAdvances(c, PinSetup(m, p, e), GETPIN, replies, n);
    case DoClose =>
      CommandsAre("", "", "");
      j := SetupAdvances(c, [BYE], replies, n);
  }

  lemma {:induction false} PerformAllAdvances(c: Conn, ops: seq<Op>, replies: seq<seq<string>>, n: nat) returns (j: nat)
    requires AreReplies(replies) && HasRead(c, replies, n) && n + |AllCommands(ops)| <= |replies|
    ensures Advanced(c, PerformAll(c, ops), replies, n, AllCommands(ops), j)
    decreases |ops|
  {
    hide Perform, CommandsOf, Flatten, Text;
    if ops == [] {
      j := 0;
      NothingAdvances(c, replies, n);
    } else {
      j := PerformAdvances(c, ops[0], replies, n);
      var (c', threw) := Perform(c, ops[0]);
      var first, rest := CommandsOf(ops[0]), AllCommands(ops[1..]);
      if threw {
        AdvancedExtend(c, c', replies, n, first, rest, j);
      } else {
        var more := PerformAllAdvances(c', ops[1..], replies, n + |first|);
        AdvancedTrans(c, c', PerformAll(c', ops[1..]), replies, n, first, rest, more);
        j := |first| + more;
      }
    }
  }

  /** The whole session from the first byte. */
  function Session(replies: seq<seq<string>>, ops: seq<Op>): Conn {
    var (c, r) := Open(Conn("", Flatten(replies)));
    if r.Thrown? then c else PerformAll(c, ops)
  }

  lemma OpenedAdvances(c: Conn, replies: seq<seq<string>>, ops: seq<Op>) returns (j: nat)
    requires AreReplies(replies) && c.sent == "" && HasRead(c, replies, 1) && 2 + |AllCommands(ops)| <= |replies|
    ensures var (c', r) := Setup(c, [TITLE]);
            Advanced(c, if r.Thrown? then c' else PerformAll(c', ops), replies, 1, [TITLE] + AllCommands(ops), j)
  {
    var (c', r) := Setup(c, [TITLE]);
    j := SetupAdvances(c, [TITLE], replies, 1);
    if r.Thrown? {
      AdvancedExtend(c, c', replies, 1, [TITLE], AllCommands(ops), j);
    } else {
      var j' := PerformAllAdvances(c', ops, replies, 2);
      AdvancedTrans(c, c', PerformAll(c', ops), replies, 1, [TITLE], AllCommands(ops), j');
      j := 1 + j';
    }
  }

  lemma SessionAdvances(replies: seq<seq<string>>, ops: seq<Op>) returns (j: nat)
    requires AreReplies(replies) && 2 + |AllCommands(ops)| <= |replies|
    ensures var commands, c := [TITLE] + AllCommands(ops), Session(replies, ops);
            j <= |commands| && HasRead(c, replies, j + 1) && c.sent == Text(commands[..j])
  {
    var c0 := Conn("", Flatten(replies));
    assert replies[0..] == replies && Text([]) == "";
    ReadNext(c0, replies, 0);
    hide Receive, Setup, Text, Flatten, PerformAll, Answer;
    if Answer(replies[0]).code != 0 {
      j := 0;
    } else {
      j := OpenedAdvances(c0.(inbox := Flatten(replies[1..])), replies, ops);
    }
  }

  /** A client that has sent just these commands and read the greeting and one reply for each. */
  lemma SentLockstep(c: Conn, replies: seq<seq<string>>, commands: seq<string>)
    requires AreReplies(replies) && c.sent == Text(commands) && HasRead(c, replies, |commands| + 1)
    ensures |Received(c.sent, [])| == |commands| + NewlinesIn(commands)
    ensures InLockstep(c, replies) <==> NewlinesIn(commands) == 0
    ensures InLockstep(c, replies) ==> Received(c.sent, []) == commands
  {
    hide Text, Received, HasRead, AreReplies, Newlines, NewlinesIn;
    ReceivedCount(c.sent, []);
    NewlinesOfText(commands);
    ReadExactly(c, replies, |commands| + 1, |Received(c.sent, [])| + 1);
    NoNewlinesIn(commands);
    if NewlinesIn(commands) == 0 {
      ReceivedText(commands);
    }
  }

  /** Over any session, even one cut short by a refused command, the client sends the first j commands in
      order and reads the greeting and j replies. It stays in lockstep with the server exactly when none of
      those commands contains a newline, and then the server receives exactly those commands. */
  lemma SessionLockstep(replies: seq<seq<string>>, ops: seq<Op>) returns (j: nat)
    requires AreReplies(replies) && 2 + |AllCommands(ops)| <= |replies|
    ensures var commands, c := ["SETTITLE GravelBox"] + AllCommands(ops), Session(replies, ops);
            && j <= |commands| && HasRead(c, replies, j + 1) && c.sent == Text(commands[..j])
            && |Received(c.sent, [])| == j + NewlinesIn(commands[..j])
            && (InLockstep(c, replies) <==> NewlinesIn(commands[..j]) == 0)
            && (InLockstep(c, replies) ==> Received(c.sent, []) == commands[..j])
  {
    j := SessionAdvances(replies, ops);
    SentLockstep(Session(replies, ops), replies, ([TITLE] + AllCommands(ops))[..j]);
  }
}
