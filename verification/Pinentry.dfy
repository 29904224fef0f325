/**
  The line-based conversation with pinentry (Assuan protocol): the client sends
  command lines, the server answers each with D and S lines and one final OK or
  ERR line. The functions describe the conversation on values; the class keeps
  the two streams as fields.
 */
module Pinentry {
  import opened Base
  import opened Numerals

  const CANCEL: U32 := 83886179

  datatype Failure =
    | Protocol(code: U32, message: string)
    | UnknownResponse(line: string)
    | IndeterminateCode(line: string)   // the source goes on with an uninitialised variable
    | EndOfInput

  datatype Result<+T> = Ok(value: T) | Thrown(failure: Failure)

  datatype Response = Response(code: U32, data: string)

  // ---- reading one response ------------------------------------------------

  predicate Starts(line: string, prefix: string) { prefix <= line }

  predicate IsOk(line: string) { line == "OK" || Starts(line, "OK ") }
  predicate IsErr(line: string) { Starts(line, "ERR ") }
  predicate IsData(line: string) { Starts(line, "D ") }
  predicate IsStatus(line: string) { Starts(line, "S ") }

  function SkipBlanks(s: string): string {
    if s != [] && IsSpace(s[0]) then SkipBlanks(s[1..]) else s
  }

  /** An ERR line with nothing but blanks after it; the code read from it is indeterminate. */
  predicate IsBareErr(line: string) { IsErr(line) && SkipBlanks(line[4..]) == [] }

  predicate HasSign(s: string) { s != [] && (s[0] == '-' || s[0] == '+') }

  function LeadingDigits(s: string): string {
    if s == [] || !('0' <= s[0] <= '9') then [] else [s[0]] + LeadingDigits(s[1..])
  }

  lemma LeadingDigitsFacts(s: string)
    ensures LeadingDigits(s) <= s && Digital(LeadingDigits(s))
    ensures forall i :: 0 <= i < |LeadingDigits(s)| ==> '0' <= LeadingDigits(s)[i] <= '9'
  {
  }

  /** What follows blanks and a sign. */
  function Magnitude(rest: string): string {
    var text := SkipBlanks(rest);
    if HasSign(text) then text[1..] else text
  }

  predicate Negated(rest: string) { HasSign(SkipBlanks(rest)) && SkipBlanks(rest)[0] == '-' }

  function MagnitudeOf(rest: string): nat {
    LeadingDigitsFacts(Magnitude(rest));
    ParseNonNegative(LeadingDigits(Magnitude(rest)), 10);
    Parse(LeadingDigits(Magnitude(rest)), 10)
  }

  /** `iss >> code` on a uint32_t: blanks and a sign are skipped, a negative number wraps around, one that
      is too large becomes the largest, and 0 is stored when there are no digits. */
  function ErrorCode(rest: string): U32 {
    var n := MagnitudeOf(rest);
    if n >= TWO_32 then TWO_32 - 1 else if Negated(rest) && n > 0 then TWO_32 - n else n
  }

  /** `iss.get(); getline(iss, data)`: after a failed or exhausted extraction, data is left alone. */
  function ErrorText(rest: string, data: string): string {
    var tail := Magnitude(rest);
    var digits := LeadingDigits(tail);
    LeadingDigitsFacts(tail);
    if digits == [] || MagnitudeOf(rest) >= TWO_32 || |digits| == |tail| then data else tail[|digits| + 1..]
  }

  /** The response at the front of the unread lines, and what is left unread. */
  function Receive(lines: seq<string>, data: string): (Result<Response>, seq<string>)
    decreases |lines|
  {
    if lines == [] then (Thrown(EndOfInput), [])
    else
      var line, rest := lines[0], lines[1..];
      if IsOk(line) then (Ok(Response(0, data)), rest)
      else if IsBareErr(line) then (Thrown(IndeterminateCode(line)), rest)
      else if IsErr(line) then (Ok(Response(ErrorCode(line[4..]), ErrorText(line[4..], data))), rest)
      else if IsData(line) then Receive(rest, line[2..])
      else if IsStatus(line) then Receive(rest, data)
      else (Thrown(UnknownResponse(line)), rest)
  }

  // ---- the conversation on values -------------------------------------------

  datatype Conn = Conn(sent: string, inbox: seq<string>)

  datatype Password = Password(cancelled: bool, password: string)

  /** Sends one command and waits for its response. */
  function Exchange(c: Conn, command: string): (Conn, Result<Response>) {
    var r := Receive(c.inbox, "");
    (Conn(c.sent + command + "\n", r.1), r.0)
  }

  /** Waits for a response that must be a success. */
  function Require(r: Result<Response>): Result<()> {
    match r
    case Thrown(f) => Thrown(f)
    case Ok(resp) => if resp.code == 0 then Ok(()) else Thrown(Protocol(resp.code, resp.data))
  }

  /** Commands that must each succeed. */
  function Setup(c: Conn, commands: seq<string>): (Conn, Result<()>)
    decreases |commands|
  {
    if commands == [] then (c, Ok(()))
    else
      var (c', r) := Exchange(c, commands[0]);
      if Require(r).Thrown? then (c', Require(r)) else Setup(c', commands[1..])
  }

  /** Commands that must succeed, then a question whose response is returned. */
  function Question(c: Conn, setup: seq<string>, query: string): (Conn, Result<Response>) {
    var (c', r) := Setup(c, setup);
    if r.Thrown? then (c', Thrown(r.failure)) else Exchange(c', query)
  }

  function Confirmed(r: Result<Response>): Result<bool> {
    match r
    case Thrown(f) => Thrown(f)
    case Ok(resp) =>
      if resp.code == 0 then Ok(true)
      else if resp.code == CANCEL then Ok(false)
      else Thrown(Protocol(resp.code, resp.data))
  }

  function Entered(r: Result<Response>): Result<Password> {
    match r
    case Thrown(f) => Thrown(f)
    case Ok(resp) =>
      if resp.code == 0 then Ok(Password(false, resp.data))
      else if resp.code == CANCEL then Ok(Password(true, ""))
      else Thrown(Protocol(resp.code, resp.data))
  }

  function ConfirmSetup(message: string): seq<string> {
    ["SETDESC " + message, "SETOK Allow", "SETCANCEL Deny"]
  }

  function PinSetup(message: string, prompt: string, error: string): seq<string> {
    ["SETDESC " + message, "SETPROMPT " + prompt, "SETOK OK", "SETCANCEL Cancel"]
    + if error == "" then [] else ["SETERROR " + error]
  }

  const CONFIRM: string := "CONFIRM"
  const GETPIN: string := "GETPIN"
  const TITLE: string := "SETTITLE GravelBox"
  const BYE: string := "BYE"

  function Confirm(c: Conn, message: string): (Conn, Result<bool>) {
    var (c', r) := Question(c, ConfirmSetup(message), CONFIRM);
    (c', Confirmed(r))
  }

  function GetPin(c: Conn, message: string, prompt: string, error: string): (Conn, Result<Password>) {
    var (c', r) := Question(c, PinSetup(message, prompt, error), GETPIN);
    (c', Entered(r))
  }

  /** The greeting, then the title. */
  function Open(c: Conn): (Conn, Result<()>) {
    var r := Receive(c.inbox, "");
    var c' := c.(inbox := r.1);
    if Require(r.0).Thrown? then (c', Require(r.0)) else Setup(c', [TITLE])
  }

  function Close(c: Conn): (Conn, Result<()>) { Setup(c, [BYE]) }

  lemma {:induction false} ReceiveShrinks(lines: seq<string>, data: string)
    ensures |Receive(lines, data).1| <= |lines|
    ensures Receive(lines, data).0.Ok? ==> |Receive(lines, data).1| < |lines|
    decreases |lines|
  {
    if lines == [] || IsOk(lines[0]) || IsErr(lines[0]) {
    } else {
      ReceiveShrinks(lines[1..], if IsData(lines[0]) then lines[0][2..] else data);
    }
  }

  lemma {:induction false} SetupShrinks(c: Conn, commands: seq<string>)
    ensures |Setup(c, commands).0.inbox| <= |c.inbox|
    decreases |commands|
  {
    if commands == [] {
    } else {
      ReceiveShrinks(c.inbox, "");
      SetupShrinks(Exchange(c, commands[0]).0, commands[1..]);
    }
  }

  lemma GetPinShrinks(c: Conn, message: string, prompt: string, error: string)
    ensures GetPin(c, message, prompt, error).1.Ok? ==> |GetPin(c, message, prompt, error).0.inbox| < |c.inbox|
  {
    SetupShrinks(c, PinSetup(message, prompt, error));
    ReceiveShrinks(Setup(c, PinSetup(message, prompt, error)).0.inbox, "");
  }

  // ---- the connection object -------------------------------------------------

  /** A set-up is run command by command and stops at the first failure. */
  lemma SetupCons(c: Conn, commands: seq<string>)
    requires commands != []
    ensures var (c', r) := Setup(c, [commands[0]]);
            Setup(c, commands) == if r.Thrown? then (c', r) else Setup(c', commands[1..])
  {
    assert [commands[0]][1..] == [];
  }

  class PinentryConn {
    var sent: string
    var inbox: seq<string>

    constructor (inbox: seq<string>)
      ensures Value() == Conn("", inbox)
    {
      this.sent, this.inbox := "", inbox;
    }

    function Value(): Conn
      reads this
    {
      Conn(sent, inbox)
    }

    method Send(command: string)
      modifies this`sent
      ensures sent == old(sent) + command + "\n"
    {
      sent := sent + command + "\n";
    }

    method Recv() returns (r: Result<Response>)
      modifies this`inbox
      ensures (r, inbox) == Receive(old(inbox), "")
    {
      var data := "";
      while inbox != []
        invariant Receive(inbox, data) == Receive(old(inbox), "")
        decreases |inbox|
      {
        var line := inbox[0];
        inbox := inbox[1..];
        if IsOk(line) {
          return Ok(Response(0, data));
        } else if IsBareErr(line) {
          return Thrown(IndeterminateCode(line));
        } else if IsErr(line) {
          return Ok(Response(ErrorCode(line[4..]), ErrorText(line[4..], data)));
        } else if IsData(line) {
          data := line[2..];
        } else if !IsStatus(line) {
          return Thrown(UnknownResponse(line));
        }
      }
      return Thrown(EndOfInput);
    }

    method ExpectOk() returns (r: Result<()>)
      modifies this`inbox
      ensures inbox == Receive(old(inbox), "").1 && r == Require(Receive(old(inbox), "").0)
    {
      var response := Recv();
      r := Require(response);
    }

    /** One command that must succeed. */
    method Command(command: string) returns (r: Result<()>)
      modifies this
      ensures (Value(), r) == Setup(old(Value()), [command])
    {
      Send(command);
      r := ExpectOk();
      assert Setup(Value(), [][..]) == (Value(), Ok(()));
      assert [command][1..] == [];
    }

    method OpenConn() returns (r: Result<()>)
      modifies this
      ensures (Value(), r) == Open(old(Value()))
    {
      r := ExpectOk();
      if r.Ok? {
        r := Command(TITLE);
      }
    }

    method CloseConn() returns (r: Result<()>)
      modifies this
      ensures (Value(), r) == Close(old(Value()))
    {
      r := Command(BYE);
    }

    /** Shows a message and asks for a decision. */
    method ConfirmMessage(message: string) returns (r: Result<bool>)
      modifies this
      ensures (Value(), r) == Confirm(old(Value()), message)
    {
      ghost var setup := ConfirmSetup(message);
      SetupCons(Value(), setup);
      var s := Command("SETDESC " + message);
      if s.Thrown? {
        return Thrown(s.failure);
      }
      SetupCons(Value(), setup[1..]);
      s := Command("SETOK Allow");
      if s.Thrown? {
        return Thrown(s.failure);
      }
      assert setup[1..][1..] == ["SETCANCEL Deny"];
      s := Command("SETCANCEL Deny");
      if s.Thrown? {
        return Thrown(s.failure);
      }
      Send(CONFIRM);
      var response := Recv();
      r := Confirmed(response);
    }

    /** Asks for a password; an error text is shown when there is one. */
    method GetPassword(message: string, prompt: string, error: string) returns (r: Result<Password>)
      modifies this
      ensures (Value(), r) == GetPin(old(Value()), message, prompt, error)
    {
      ghost var setup := PinSetup(message, prompt, error);
      SetupCons(Value(), setup);
      var s := Command("SETDESC " + message);
      if s.Thrown? {
        return Thrown(s.failure);
      }
      SetupCons(Value(), setup[1..]);
      s := Command("SETPROMPT " + prompt);
      if s.Thrown? {
        return Thrown(s.failure);
      }
      assert setup[1..][1..] == setup[2..];
      SetupCons(Value(), setup[2..]);
      s := Command("SETOK OK");
      if s.Thrown? {
        return Thrown(s.failure);
      }
      assert setup[2..][1..] == setup[3..];
      SetupCons(Value(), setup[3..]);
      s := Command("SETCANCEL Cancel");
      if s.Thrown? {
        return Thrown(s.failure);
      }
      assert setup[3..][1..] == if error == "" then [] else ["SETERROR " + error];
      if error != "" {
        s := Command("SETERROR " + error);
        if s.Thrown? {
          return Thrown(s.failure);
        }
      }
      Send(GETPIN);
      var response := Recv();
      r := Entered(response);
    }
  }
}
