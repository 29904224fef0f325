/**
  What the server says, and what the client makes of it: a reply is D and S
  lines closed by one OK or ERR line, and `replies` lists the greeting and then
  one reply for each command line.
 */
module PinentryReplies {
  import opened Numerals
  import opened Pinentry

  function Closing(b: seq<string>): string
    requires b != []
  {
    b[|b| - 1]
  }

  // ---- the lines of a reply, by their spelling ------------------------------------

  predicate Okay(line: string) { line == "OK" || "OK " <= line }

  predicate Info(line: string) { "D " <= line || "S " <= line }

  predicate AllSpaces(s: string) { forall i :: 0 <= i < |s| ==> IsSpace(s[i]) }

  predicate AllDigits(s: string) { forall i :: 0 <= i < |s| ==> '0' <= s[i] <= '9' }

  predicate AllZeros(s: string) { forall i :: 0 <= i < |s| ==> s[i] == '0' }

  /** The parts of an ERR line. Each is as long as it can be. */
  datatype ErrLine = ErrLine(blanks: string, sign: string, digits: string, tail: string)

  ghost predicate Spells(line: string, e: ErrLine) {
    && line == "ERR " + (e.blanks + (e.sign + (e.digits + e.tail)))
    && AllSpaces(e.blanks) && (e.sign == "" || e.sign == "-" || e.sign == "+") && AllDigits(e.digits)
    && (e.sign == "" && e.digits + e.tail != "" ==>
          !IsSpace((e.digits + e.tail)[0]) && (e.digits + e.tail)[0] != '-' && (e.digits + e.tail)[0] != '+')
    && (e.tail != "" ==> !('0' <= e.tail[0] <= '9'))
  }

  /** An ERR line with something to read after the blanks. */
  ghost predicate HasCode(line: string) {
    exists e :: Spells(line, e) && e.sign + e.digits + e.tail != ""
  }

  /** D and S lines, closed by one OK line or one ERR line with something on it. */
  ghost predicate IsReply(b: seq<string>) {
    && b != []
    && (Okay(Closing(b)) || HasCode(Closing(b)))
    && forall i :: 0 <= i < |b| - 1 ==> Info(b[i])
  }

  ghost predicate AreReplies(replies: seq<seq<string>>) {
    forall i :: 0 <= i < |replies| ==> IsReply(replies[i])
  }

  function Flatten(replies: seq<seq<string>>): seq<string>
    decreases |replies|
  {
    if replies == [] then [] else replies[0] + Flatten(replies[1..])
  }

  /** The response a reply stands for. */
  function Answer(b: seq<string>): Response {
    var r := Receive(b, "").0;
    if r.Ok? then r.value else Response(0, "")
  }

  // ---- reading them -----------------------------------------------------------------

  lemma {:induction false} SkipBlanksIs(blanks: string, rest: string)
    requires AllSpaces(blanks) && (rest == [] || !IsSpace(rest[0]))
    ensures SkipBlanks(blanks + rest) == rest
    decreases |blanks|
  {
    if blanks == [] {
      assert blanks + rest == rest;
    } else {
      assert (blanks + rest)[1..] == blanks[1..] + rest;
      SkipBlanksIs(blanks[1..], rest);
    }
  }

  lemma {:induction false} LeadingDigitsIs(digits: string, tail: string)
    requires AllDigits(digits) && (tail == [] || !('0' <= tail[0] <= '9'))
    ensures LeadingDigits(digits + tail) == digits
    decreases |digits|
  {
    if digits == [] {
      assert digits + tail == tail;
    } else {
      assert (digits + tail)[1..] == digits[1..] + tail;
      LeadingDigitsIs(digits[1..], tail);
    }
  }

  lemma {:induction false} SkipBlanksSplits(s: string) returns (blanks: string)
    ensures s == blanks + SkipBlanks(s) && AllSpaces(blanks)
    ensures SkipBlanks(s) == [] || !IsSpace(SkipBlanks(s)[0])
    decreases |s|
  {
    if s == [] || !IsSpace(s[0]) {
      blanks := [];
      assert s == [] + s;
    } else {
      blanks := SkipBlanksSplits(s[1..]);
      blanks := [s[0]] + blanks;
    }
  }

  lemma AfterErr(rest: string)
    ensures IsErr("ERR " + rest) && ("ERR " + rest)[4..] == rest
    ensures !Okay("ERR " + rest) && !IsData("ERR " + rest) && !IsStatus("ERR " + rest)
  {
    var line := "ERR " + rest;
    assert line[0] == 'E' && "OK"[0] == 'O';
  }

  lemma {:induction false} LeadingDigitsEnd(s: string)
    ensures LeadingDigits(s) <= s
    ensures |LeadingDigits(s)| < |s| ==> !('0' <= s[|LeadingDigits(s)|] <= '9')
    decreases |s|
  {
    if s == [] || !('0' <= s[0] <= '9') {
    } else {
      LeadingDigitsEnd(s[1..]);
    }
  }

  /** Every ERR line can be spelt out. */
  lemma SpelledOut(line: string) returns (e: ErrLine)
    requires IsErr(line)
    ensures Spells(line, e)
  {
    var rest := line[4..];
    assert line == "ERR " + rest;
    var blanks := SkipBlanksSplits(rest);
    var text := SkipBlanks(rest);
    var sign := if HasSign(text) then [text[0]] else "";
    var tail := Magnitude(rest);
    assert text == sign + tail;
    var digits := LeadingDigits(tail);
    LeadingDigitsFacts(tail);
    LeadingDigitsEnd(tail);
    assert tail == digits + tail[|digits|..];
    e := ErrLine(blanks, sign, digits, tail[|digits|..]);
  }

  lemma SpelledParts(line: string, e: ErrLine)
    requires Spells(line, e)
    ensures IsErr(line) && !Okay(line)
    ensures SkipBlanks(line[4..]) == e.sign + (e.digits + e.tail)
    ensures Magnitude(line[4..]) == e.digits + e.tail && LeadingDigits(Magnitude(line[4..])) == e.digits
    ensures Negated(line[4..]) <==> e.sign == "-"
  {
    var text := e.sign + (e.digits + e.tail);
    AfterErr(e.blanks + text);
    if e.sign == "" {
      assert text == e.digits + e.tail;
    } else {
      assert text[0] == e.sign[0] && text[1..] == e.digits + e.tail;
    }
    SkipBlanksIs(e.blanks, text);
    LeadingDigitsIs(e.digits, e.tail);
  }

  /** The code and the text that are read from an ERR line, by its parts: no digits give 0, a number of 2 to
      the 32 or more gives the largest code, a minus sign negates modulo 2 to the 32; the text is what follows
      the character after the code, if there is any and the code could be stored. */
  lemma ErrLineMeans(line: string, e: ErrLine, data: string)
    requires Spells(line, e)
    ensures Parse(e.digits, 10) >= 0
    ensures ErrorCode(line[4..]) ==
            var n := Parse(e.digits, 10);
            if n >= 0x1_0000_0000 then 0xffff_ffff else if e.sign == "-" && n > 0 then 0x1_0000_0000 - n else n
    ensures ErrorText(line[4..], data) ==
            if e.digits == "" || Parse(e.digits, 10) >= 0x1_0000_0000 || e.tail == "" then data else e.tail[1..]
    ensures IsBareErr(line) <==> e.sign + e.digits + e.tail == ""
  {
    SpelledParts(line, e);
    LeadingDigitsFacts(Magnitude(line[4..]));
    ParseNonNegative(e.digits, 10);
    assert (e.digits + e.tail)[|e.digits|..] == e.tail;
    assert |e.tail| > 0 ==> (e.digits + e.tail)[|e.digits| + 1..] == e.tail[1..];
  }

  lemma FirstChars(line: string)
    ensures Okay(line) || IsOk(line) ==> line != [] && line[0] == 'O'
    ensures IsErr(line) ==> line != [] && line[0] == 'E'
    ensures IsData(line) || "D " <= line ==> line != [] && line[0] == 'D'
    ensures IsStatus(line) || "S " <= line ==> line != [] && line[0] == 'S'
  {
  }

  lemma ClosingKinds(line: string)
    requires Okay(line) || HasCode(line)
    ensures Okay(line) <==> IsOk(line)
    ensures HasCode(line) <==> IsErr(line)
    ensures !IsBareErr(line) && !Okay(line) <==> HasCode(line)
  {
    if HasCode(line) {
      var e :| Spells(line, e) && e.sign + e.digits + e.tail != "";
      SpelledParts(line, e);
      ErrLineMeans(line, e, "");
    }
    FirstChars(line);
  }

  lemma InfoKinds(line: string)
    requires Info(line)
    ensures !IsOk(line) && !IsErr(line) && (IsData(line) <==> "D " <= line) && (IsData(line) || IsStatus(line))
  {
    FirstChars(line);
  }

  function DataAfter(line: string, data: string): string { if "D " <= line then line[2..] else data }

  /** An info line is read, and reading goes on. */
  lemma ReceiveInfo(line: string, rest: seq<string>, data: string)
    requires Info(line)
    ensures Receive([line] + rest, data) == Receive(rest, DataAfter(line, data))
  {
    InfoKinds(line);
    assert ([line] + rest)[1..] == rest;
  }

  lemma ReceiveClosing(line: string, rest: seq<string>, data: string)
    requires Okay(line) || HasCode(line)
    ensures Receive([line] + rest, data).1 == rest && Receive([line] + rest, data).0.Ok?
    ensures Receive([line] + rest, data).0.value ==
            if Okay(line) then Response(0, data) else Response(ErrorCode(line[4..]), ErrorText(line[4..], data))
  {
    ClosingKinds(line);
    assert ([line] + rest)[1..] == rest;
  }

  /** The text of the last D line, or `start`. */
  function LastOf(b: seq<string>, start: string): string {
    if b == [] then start else LastOf(b[1..], DataAfter(b[0], start))
  }

  lemma ReplyTail(b: seq<string>)
    requires IsReply(b) && |b| > 1
    ensures Info(b[0]) && IsReply(b[1..]) && Closing(b[1..]) == Closing(b) && b == [b[0]] + b[1..]
  {
    var r := b[1..];
    assert forall i :: 0 <= i < |r| - 1 ==> r[i] == b[i + 1];
  }

  /** Reading consumes exactly one reply, whatever follows it, and answers from its closing line and its last
      D line. */
  lemma {:induction false} ReceiveReply(b: seq<string>, rest: seq<string>, data: string)
    requires IsReply(b)
    ensures Receive(b, data).0.Ok? && Receive(b + rest, data) == (Receive(b, data).0, rest)
    ensures var closing, last := Closing(b), LastOf(b[..|b| - 1], data);
            Receive(b, data).0.value ==
            if Okay(closing) then Response(0, last)
            else Response(ErrorCode(closing[4..]), ErrorText(closing[4..], last))
    decreases |b|
  {
    hide Receive, Spells;
    if |b| == 1 {
      assert b == [b[0]] + [] && b[..0] == [] && b + rest == [b[0]] + rest;
      ReceiveClosing(b[0], rest, data);
      ReceiveClosing(b[0], [], data);
    } else {
      ReplyTail(b);
      assert b + rest == [b[0]] + (b[1..] + rest);
      assert b[..|b| - 1][1..] == b[1..][..|b| - 2];
      ReceiveInfo(b[0], b[1..] + rest, data);
      ReceiveInfo(b[0], b[1..], data);
      ReceiveReply(b[1..], rest, DataAfter(b[0], data));
    }
  }

  /** A line of no known kind ends the conversation, and so does the end of the input. */
  lemma {:induction false} StrayLineThrows(info: seq<string>, line: string, rest: seq<string>, data: string)
    requires forall i :: 0 <= i < |info| ==> Info(info[i])
    requires !Okay(line) && !Info(line) && !("ERR " <= line)
    ensures Receive(info + [line] + rest, data) == (Thrown(UnknownResponse(line)), rest)
    ensures Receive(info, data) == (Thrown(EndOfInput), [])
    decreases |info|
  {
    var all := info + [line] + rest;
    if info == [] {
      assert all[0] == line && all[1..] == rest;
    } else {
      assert all == [info[0]] + (info[1..] + [line] + rest) && info == [info[0]] + info[1..];
      ReceiveInfo(info[0], info[1..] + [line] + rest, data);
      ReceiveInfo(info[0], info[1..], data);
      assert forall i :: 0 <= i < |info| - 1 ==> info[1..][i] == info[i + 1];
      StrayLineThrows(info[1..], line, rest, DataAfter(info[0], data));
    }
  }

  /** The client has read exactly the first n replies. */
  ghost predicate HasRead(c: Conn, replies: seq<seq<string>>, n: nat) {
    n <= |replies| && c.inbox == Flatten(replies[n..])
  }

  lemma ReadNext(c: Conn, replies: seq<seq<string>>, n: nat)
    requires AreReplies(replies) && HasRead(c, replies, n) && n < |replies|
    ensures Receive(c.inbox, "").0 == Ok(Answer(replies[n]))
    ensures Receive(c.inbox, "").1 == Flatten(replies[n + 1..])
  {
    assert replies[n..][1..] == replies[n + 1..];
    ReceiveReply(replies[n], Flatten(replies[n + 1..]), "");
    ReceiveReply(replies[n], [], "");
  }

  // ---- what a reply says, by its lines --------------------------------------------

  /** What the client takes for a success, by the closing line alone: OK, but also an ERR line without digits
      where its code should be, or with zeros only. */
  ghost predicate Accepted(b: seq<string>)
    requires IsReply(b)
  {
    Okay(Closing(b)) || exists e :: Spells(Closing(b), e) && AllZeros(e.digits)
  }

  /** The code of a cancel is 83886179; a minus sign counts down from 2 to the 32. */
  predicate IsCancelCode(e: ErrLine) {
    Parse(e.digits, 10) == if e.sign == "-" then 0x1_0000_0000 - 83886179 else 83886179
  }

  /** The closing line is the ERR line of a cancel. */
  ghost predicate Cancelled(b: seq<string>)
    requires IsReply(b)
  {
    exists e :: Spells(Closing(b), e) && IsCancelCode(e)
  }

  /** The closing line is an ERR line whose code has a digit other than 0. */
  ghost predicate NamesError(line: string) {
    exists e :: Spells(line, e) && !AllZeros(e.digits)
  }

  /** The last D line says `text`; without a D line it is empty. */
  ghost predicate LastData(b: seq<string>, text: string) {
    || (exists i :: 0 <= i < |b| && "D " <= b[i] && text == b[i][2..] && forall j :: i < j < |b| ==> !("D " <= b[j]))
    || (text == "" && forall j :: 0 <= j < |b| ==> !("D " <= b[j]))
  }

  /** A successful reply carries the text of its last D line; only an ERR line with the code 0 and something
      behind it carries that instead. */
  ghost predicate Carries(b: seq<string>, text: string)
    requires IsReply(b)
  {
    || (Okay(Closing(b)) && LastData(b, text))
    || exists e, d :: Spells(Closing(b), e) && LastData(b, d)
                      && text == if e.digits == "" || e.tail == "" then d else e.tail[1..]
  }

  lemma {:induction false} ParseZeroIff(s: string)
    requires AllDigits(s)
    ensures Parse(s, 10) >= 0
    ensures Parse(s, 10) == 0 <==> AllZeros(s)
    decreases |s|
  {
    if s == [] {
    } else {
      ParseZeroIff(s[..|s| - 1]);
    }
  }

  lemma ErrCodes(line: string, e: ErrLine)
    requires Spells(line, e)
    ensures ErrorCode(line[4..]) == 0 <==> AllZeros(e.digits)
    ensures ErrorCode(line[4..]) == CANCEL <==> IsCancelCode(e)
  {
    ErrLineMeans(line, e, "");
    ParseZeroIff(e.digits);
  }

  /** A reply counts as success exactly when its closing line is OK or names no error, and as a cancel exactly
      when its code is that of a cancel. */
  lemma AcceptedIff(b: seq<string>)
    requires IsReply(b)
    ensures Answer(b).code == 0 <==> Accepted(b)
    ensures Answer(b).code == CANCEL <==> Cancelled(b)
    ensures !Accepted(b) || !Cancelled(b)
    ensures Accepted(b) <==> Okay(Closing(b)) || !NamesError(Closing(b))
  {
    ReceiveReply(b, [], "");
    var closing := Closing(b);
    hide Spells, Receive, ErrorCode, ErrorText;
    ClosingKinds(closing);
    if Okay(closing) {
      forall e | Spells(closing, e) ensures false {
        SpelledParts(closing, e);
      }
    } else {
      var e0 := SpelledOut(closing);
      forall e | Spells(closing, e)
        ensures ErrorCode(closing[4..]) == 0 <==> AllZeros(e.digits)
        ensures ErrorCode(closing[4..]) == CANCEL <==> IsCancelCode(e)
      {
        ErrCodes(closing, e);
      }
    }
  }

  lemma {:induction false} LastOfIs(b: seq<string>, start: string)
    ensures || (exists i :: 0 <= i < |b| && "D " <= b[i] && LastOf(b, start) == b[i][2..]
                            && forall j :: i < j < |b| ==> !("D " <= b[j]))
            || (LastOf(b, start) == start && forall j :: 0 <= j < |b| ==> !("D " <= b[j]))
    decreases |b|
  {
    if b == [] {
    } else {
      var rest := b[1..];
      LastOfIs(rest, DataAfter(b[0], start));
      assert forall j :: 0 <= j < |rest| ==> rest[j] == b[j + 1];
      if i :| 0 <= i < |rest| && "D " <= rest[i] && LastOf(b, start) == rest[i][2..]
              && forall j :: i < j < |rest| ==> !("D " <= rest[j]) {
        assert "D " <= b[i + 1] && LastOf(b, start) == b[i + 1][2..];
        forall j | i + 1 < j < |b| ensures !("D " <= b[j]) {
          assert !("D " <= rest[j - 1]);
        }
      } else {
        forall j | 0 < j < |b| ensures !("D " <= b[j]) {
          assert !("D " <= rest[j - 1]);
        }
      }
    }
  }

  /** The text of the last D line is the one before the closing line, which is no D line. */
  lemma LastBeforeClosing(b: seq<string>)
    requires IsReply(b)
    ensures LastData(b, LastOf(b[..|b| - 1], ""))
  {
    var front := b[..|b| - 1];
    LastOfIs(front, "");
    assert !("D " <= Closing(b)) by {
      ClosingKinds(Closing(b));
      assert Closing(b)[0] == 'O' || Closing(b)[0] == 'E';
    }
    assert forall j :: 0 <= j < |front| ==> front[j] == b[j];
    if i :| 0 <= i < |front| && "D " <= front[i] && LastOf(front, "") == front[i][2..]
            && forall j :: i < j < |front| ==> !("D " <= front[j]) {
      forall j | i < j < |b| ensures !("D " <= b[j]) {
        assert j < |front| ==> !("D " <= front[j]);
      }
    }
  }

  lemma LastDataOnce(b: seq<string>, t1: string, t2: string)
    requires LastData(b, t1) && LastData(b, t2)
    ensures t1 == t2
  {
  }

  /** A code that counts as success is 0, so it could be stored. */
  lemma SmallCode(line: string, e: ErrLine, b: seq<string>)
    requires IsReply(b) && Accepted(b) && line == Closing(b) && Spells(line, e) && !Okay(line)
    ensures Parse(e.digits, 10) == 0
  {
    AcceptedIff(b);
    ReceiveReply(b, [], "");
    ErrCodes(line, e);
    ErrLineMeans(line, e, "");
    ParseZeroIff(e.digits);
  }

  /** The response to a successful reply has the text that the reply carries. */
  lemma CarriesIff(b: seq<string>, text: string)
    requires IsReply(b) && Accepted(b)
    ensures Carries(b, text) <==> text == Answer(b).data
  {
    ReceiveReply(b, [], "");
    LastBeforeClosing(b);
    AcceptedIff(b);
    var closing, last := Closing(b), LastOf(b[..|b| - 1], "");
    forall d | LastData(b, d) ensures d == last {
      LastDataOnce(b, d, last);
    }
    hide LastData, Spells, Receive, ErrorCode, ErrorText, LastOf;
    ClosingKinds(closing);
    forall e | Spells(closing, e)
      ensures !Okay(closing)
      ensures ErrorText(closing[4..], last) == if e.digits == "" || e.tail == "" then last else e.tail[1..]
    {
      SpelledParts(closing, e);
      ErrLineMeans(closing, e, last);
      ErrCodes(closing, e);
      SmallCode(closing, e, b);
    }
    if !Okay(closing) {
      var e := SpelledOut(closing);
    }
  }
}
