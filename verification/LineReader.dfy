/**
  Reading a printed line back. The readers know the format only: a name, an
  opening parenthesis, fields separated by a comma and a blank, a closing
  parenthesis. They accept each value in its one proper form.
 */
module LineReader {
  import opened Base
  import opened Numerals
  import opened Escapes
  import opened ArgTypes
  import opened SyscallDefs

  // ---- one argument --------------------------------------------------------

  function ReadQuoted(s: string): Option<Meaning> {
    if s == "<fault>" then Some(Fault)
    else if |s| < 2 || s[0] != '"' then None
    else if s[|s| - 1] == '"' then
      match UnescapeAll(s[1..|s| - 1])
      case None => None
      case Some(bytes) => if |bytes| < 32 && 0 !in bytes then Some(Text(bytes, false)) else None
    else if |s| >= 5 && s[|s| - 4..] == "\"..." then
      match UnescapeAll(s[1..|s| - 4])
      case None => None
      case Some(bytes) => if |bytes| == 32 && 0 !in bytes then Some(Text(bytes, true)) else None
    else None
  }

  function Widen(n: Option<nat>): Option<int> {
    match n
    case None => None
    case Some(v) => var i: int := v; Some(i)
  }

  function ReadNumber(t: ArgType, s: string): Option<int> {
    match t
    case Unknown =>
      if |s| > 4 && s[..3] == "[0x" && s[|s| - 1] == ']' then Widen(ReadNatural(s[3..|s| - 1], 16)) else None
    case Ptr =>
      if s == "NULL" then Some(0)
      else if |s| > 2 && s[..2] == "0x" && ReadNatural(s[2..], 16) != Some(0) then Widen(ReadNatural(s[2..], 16))
      else None
    case _ => ReadSigned(s)
  }

  /** The text of an argument of type t. */
  function ReadText(t: ArgType, s: string): Option<Meaning> {
    if t == Str then ReadQuoted(s)
    else
      match ReadNumber(t, s)
      case None => None
      case Some(n) => if InRange(t, n) then Some(Number(n)) else None
  }

  lemma QuotedShape(bytes: seq<Byte>, cut: bool)
    ensures var q, n := Quoted(bytes, cut), |EscapeAll(bytes)|;
            && |q| == n + 2 + (if cut then 3 else 0)
            && q[0] == '"' && q[|q| - 1] == (if cut then '.' else '"')
            && q[1..1 + n] == EscapeAll(bytes)
            && (cut ==> q[|q| - 4..] == "\"...")
  {
  }

  lemma QuotedReads(v: Meaning)
    requires ValidMeaning(Str, v)
    ensures ReadQuoted(TextOf(Str, v)) == Some(v)
  {
    if v.Text? {
      QuotedShape(v.bytes, v.cut);
      EscapeExact(EscapeAll(v.bytes), v.bytes);
      hide UnescapeAll, EscapeAll;
      var q, n := Quoted(v.bytes, v.cut), |EscapeAll(v.bytes)|;
      assert q[0] != "<fault>"[0];
    }
  }

  lemma UncutOnly(s: string, bytes: seq<Byte>)
    requires |s| >= 2 && s[0] == '"' && s[|s| - 1] == '"' && s[1..|s| - 1] == EscapeAll(bytes)
    ensures s == Quoted(bytes, false)
  {
    assert s == [s[0]] + s[1..|s| - 1] + [s[|s| - 1]];
  }

  lemma CutOnly(s: string, bytes: seq<Byte>)
    requires |s| >= 5 && s[0] == '"' && s[|s| - 4..] == "\"..." && s[1..|s| - 4] == EscapeAll(bytes)
    ensures s == Quoted(bytes, true)
  {
    assert s == [s[0]] + s[1..|s| - 4] + s[|s| - 4..];
    assert "\"..." == "\"" + "...";
  }

  lemma QuotedOnly(s: string)
    requires ReadQuoted(s).Some?
    ensures ValidMeaning(Str, ReadQuoted(s).value) && s == TextOf(Str, ReadQuoted(s).value)
  {
    var v := ReadQuoted(s).value;
    if s != "<fault>" {
      if s[|s| - 1] == '"' {
        EscapeExact(s[1..|s| - 1], v.bytes);
        UncutOnly(s, v.bytes);
      } else {
        EscapeExact(s[1..|s| - 4], v.bytes);
        CutOnly(s, v.bytes);
      }
    }
  }

  lemma BracketsReads(s: string, n: nat)
    ensures ReadNumber(Unknown, s) == Some(n) <==> s == "[0x" + Numeral(n, 16) + "]"
  {
    var t := "[0x" + Numeral(n, 16) + "]";
    assert t[..3] == "[0x" && t[3..|t| - 1] == Numeral(n, 16) && t[|t| - 1] == ']';
    NaturalExact(Numeral(n, 16), n, 16);
    if |s| > 4 && s[..3] == "[0x" && s[|s| - 1] == ']' {
      NaturalExact(s[3..|s| - 1], n, 16);
      assert s == s[..3] + s[3..|s| - 1] + [s[|s| - 1]];
    }
  }

  lemma PointerReads(s: string, n: nat)
    ensures ReadNumber(Ptr, s) == Some(n) <==> s == if n == 0 then "NULL" else "0x" + Numeral(n, 16)
  {
    var t := "0x" + Numeral(n, 16);
    assert t[..2] == "0x" && t[2..] == Numeral(n, 16) && t[0] != "NULL"[0];
    NaturalExact(Numeral(n, 16), n, 16);
    if |s| > 2 && s[..2] == "0x" {
      NaturalExact(s[2..], n, 16);
      assert s == s[..2] + s[2..];
    }
  }

  lemma NumberReads(t: ArgType, s: string, n: int)
    requires t != Str && InRange(t, n)
    ensures ReadNumber(t, s) == Some(n) <==> s == NumberText(t, n)
  {
    match t
    case Unknown => BracketsReads(s, n);
    case Ptr => PointerReads(s, n);
    case _ => SignedExact(s, n);
  }

  /** Reading inverts printing, in both directions: a value has exactly one text, and only that text reads as
      the value. */
  lemma TextExact(t: ArgType, s: string, v: Meaning)
    ensures ReadText(t, s) == Some(v) <==> ValidMeaning(t, v) && s == TextOf(t, v)
  {
    if t == Str {
      if ValidMeaning(t, v) {
        QuotedReads(v);
      }
      if ReadQuoted(s).Some? {
        QuotedOnly(s);
      }
    } else if v.Number? && InRange(t, v.n) {
      hide ReadNumber, NumberText;
      NumberReads(t, s, v.n);
    }
  }

  // ---- characters of a field --------------------------------------------------

  predicate Plain(s: string) { ',' !in s && ' ' !in s }

  /** A character that numbers and their brackets are made of. */
  predicate Ordinary(c: char) { ' ' < c <= '~' && c != ',' && c != '(' }

  predicate AllOrdinary(s: string) { forall i :: 0 <= i < |s| ==> Ordinary(s[i]) }

  lemma OrdinaryIsPlain(s: string)
    requires AllOrdinary(s)
    ensures Plain(s) && PrintableText(s)
  {
  }

  lemma NumeralIsOrdinary(n: nat, base: nat)
    requires base == 10 || base == 16
    ensures AllOrdinary(Numeral(n, base))
  {
    NumeralRoundTrip(n, base);
    var s := Numeral(n, base);
    forall i | 0 <= i < |s| ensures Ordinary(s[i]) {
      assert 0 <= DigitValue(s[i]);
    }
  }

  lemma TextIsPlain(t: ArgType, v: Meaning)
    requires ValidMeaning(t, v) && t != Str
    ensures Plain(TextOf(t, v)) && PrintableText(TextOf(t, v))
  {
    var s := TextOf(t, v);
    if t == Unknown || t == Ptr {
      NumeralIsOrdinary(v.n, 16);
    } else {
      NumeralIsOrdinary(if v.n < 0 then -v.n else v.n, 10);
    }
    assert AllOrdinary(s);
    OrdinaryIsPlain(s);
  }

  // ---- fields and separators ---------------------------------------------

  lemma JoinShort(text: string)
    ensures Join([]) == "" && Join([text]) == text
  {
  }

  lemma {:induction false} JoinCons(texts: seq<string>)
    requires |texts| > 1
    ensures Join(texts) == texts[0] + ", " + Join(texts[1..])
    decreases |texts|
  {
    var n := |texts| - 1;
    if n > 1 {
      JoinCons(texts[..n]);
      assert texts[..n][1..] == texts[1..][..n - 1];
      assert Join(texts[1..]) == Join(texts[1..][..n - 1]) + ", " + texts[n];
      Concat4(texts[0] + ", ", Join(texts[1..n]), ", ", texts[n]);
    } else {
      assert texts[..1] == [texts[0]] && texts[1..] == [texts[1]];
    }
  }

  lemma AroundComma(a: string, b: string)
    ensures a + ", " + b == a + [','] + (" " + b)
  {
    assert ", " == [',', ' '] && " " == [' '];
  }

  lemma AroundSpace(a: string, b: string)
    ensures a + ", " + b == (a + ",") + [' '] + b
  {
    assert ", " == [',', ' '] && "," == [','];
  }

  lemma JoinEnds(a: seq<string>)
    requires |a| > 1
    ensures Join(a) == a[0] + [','] + (" " + Join(a[1..]))
    ensures Join(a) == (Join(a[..|a| - 1]) + ",") + [' '] + a[|a| - 1]
  {
    JoinCons(a);
    AroundComma(a[0], Join(a[1..]));
    AroundSpace(Join(a[..|a| - 1]), a[|a| - 1]);
  }

  /** The position of the first c, or the length. */
  function First(s: string, c: char): (i: nat)
    ensures i <= |s| && c !in s[..i] && (i < |s| ==> s[i] == c)
  {
    if s == [] || s[0] == c then 0 else 1 + First(s[1..], c)
  }

  /** The position behind the last c, or 0. */
  function BehindLast(s: string, c: char): (i: nat)
    ensures i <= |s| && c !in s[i..] && (i > 0 ==> s[i - 1] == c)
  {
    if s == [] || s[|s| - 1] == c then |s| else BehindLast(s[..|s| - 1], c)
  }

  lemma FirstIs(u: string, c: char, r: string)
    requires c !in u
    ensures First(u + [c] + r, c) == |u|
  {
    var s := u + [c] + r;
    var i := First(s, c);
    assert s[|u|] == c;
    assert forall j :: 0 <= j < |u| ==> s[j] == u[j];
    assert forall j :: 0 <= j < i ==> s[..i][j] == s[j];
  }

  lemma {:induction false} BehindLastIs(r: string, c: char, u: string)
    requires c !in u
    ensures BehindLast(r + [c] + u, c) == |r| + 1
    decreases |u|
  {
    var s := r + [c] + u;
    if u == [] {
      assert s[|s| - 1] == c;
    } else {
      assert s[|s| - 1] == u[|u| - 1] && s[..|s| - 1] == r + [c] + u[..|u| - 1];
      BehindLastIs(r, c, u[..|u| - 1]);
    }
  }

  /** Takes n fields apart. The k-th may contain separators, so fields before it are taken off the front and
      fields behind it off the end. */
  function Fields(body: string, n: nat, k: nat): seq<string>
    decreases n
  {
    if n == 0 then []
    else if n == 1 then [body]
    else if k > 0 then
      var i := First(body, ',');
      if i + 2 <= |body| then [body[..i]] + Fields(body[i + 2..], n - 1, k - 1) else []
    else
      var i := BehindLast(body, ' ');
      if i >= 2 then Fields(body[..i - 2], n - 1, 0) + [body[i..]] else []
  }

  lemma FieldsFront(body: string, n: nat, k: nat, i: nat)
    requires n > 1 && k > 0 && i == First(body, ',') && i + 2 <= |body|
    ensures Fields(body, n, k) == [body[..i]] + Fields(body[i + 2..], n - 1, k - 1)
  {
  }

  lemma FieldsBack(body: string, n: nat, i: nat)
    requires n > 1 && i == BehindLast(body, ' ') && i >= 2
    ensures Fields(body, n, 0) == Fields(body[..i - 2], n - 1, 0) + [body[i..]]
  {
  }

  lemma FirstField(texts: seq<string>, k: nat)
    requires |texts| > 1 && Plain(texts[0]) && k > 0
    ensures Fields(Join(texts), |texts|, k) == [texts[0]] + Fields(Join(texts[1..]), |texts| - 1, k - 1)
  {
    JoinEnds(texts);
    var body, front, rest := Join(texts), texts[0], Join(texts[1..]);
    hide Join, Fields;
    FirstIs(front, ',', " " + rest);
    assert body[..|front|] == front && body[|front| + 2..] == rest;
    FieldsFront(body, |texts|, k, |front|);
  }

  lemma LastField(texts: seq<string>)
    requires |texts| > 1 && Plain(texts[|texts| - 1])
    ensures Fields(Join(texts), |texts|, 0) ==
            Fields(Join(texts[..|texts| - 1]), |texts| - 1, 0) + [texts[|texts| - 1]]
  {
    JoinEnds(texts);
    var body, front, last := Join(texts), Join(texts[..|texts| - 1]), texts[|texts| - 1];
    hide Join, Fields;
    BehindLastIs(front + ",", ' ', last);
    assert body[|front| + 2..] == last && body[..|front|] == front;
    FieldsBack(body, |texts|, |front| + 2);
  }

  lemma FieldsOfFew(texts: seq<string>, k: nat)
    requires |texts| <= 1
    ensures Fields(Join(texts), |texts|, k) == texts
  {
    if texts != [] {
      JoinShort(texts[0]);
      assert texts == [texts[0]];
    }
  }

  /** Joined fields are recovered if all but the k-th are free of separators. */
  lemma {:induction false} FieldsOfJoin(texts: seq<string>, k: nat)
    requires forall i :: 0 <= i < |texts| && i != k ==> Plain(texts[i])
    ensures Fields(Join(texts), |texts|, k) == texts
    decreases |texts|
  {
    hide Join, Fields, Plain;
    if |texts| <= 1 {
      FieldsOfFew(texts, k);
    } else if k > 0 {
      var rest := texts[1..];
      FirstField(texts, k);
      assert forall i :: 0 <= i < |rest| ==> rest[i] == texts[i + 1];
      FieldsOfJoin(rest, k - 1);
      assert texts == [texts[0]] + rest;
    } else {
      var n := |texts| - 1;
      var rest := texts[..n];
      LastField(texts);
      assert forall i :: 0 <= i < |rest| ==> rest[i] == texts[i];
      FieldsOfJoin(rest, 0);
      assert texts == rest + [texts[n]];
    }
  }

  // ---- the whole line ------------------------------------------------------

  predicate AtMostOneString(types: seq<ArgType>) {
    forall i, j :: 0 <= i < j < |types| ==> types[i] != Str || types[j] != Str
  }

  ghost predicate ValidMeanings(types: seq<ArgType>, vs: seq<Meaning>) {
    |vs| == |types| && forall i :: 0 <= i < |types| ==> ValidMeaning(types[i], vs[i])
  }

  ghost function TextsOf(types: seq<ArgType>, vs: seq<Meaning>): seq<string>
    requires ValidMeanings(types, vs)
  {
    seq(|types|, i requires 0 <= i < |types| => TextOf(types[i], vs[i]))
  }

  /** The string parameter, if there is one. */
  function StringAt(types: seq<ArgType>): nat {
    if types == [] || types[0] == Str then 0 else 1 + StringAt(types[1..])
  }

  lemma OthersAreNoStrings(types: seq<ArgType>)
    requires AtMostOneString(types)
    ensures forall i :: 0 <= i < |types| && i != StringAt(types) ==> types[i] != Str
  {
    if types == [] || types[0] == Str {
    } else {
      OthersAreNoStrings(types[1..]);
      forall i | 0 <= i < |types| && i != StringAt(types) ensures types[i] != Str {
        assert i > 0 ==> types[i] == types[1..][i - 1];
      }
    }
  }

  function ReadAll(types: seq<ArgType>, texts: seq<string>): Option<seq<Meaning>> {
    if |types| != |texts| then None
    else if types == [] then Some([])
    else
      match (ReadText(types[0], texts[0]), ReadAll(types[1..], texts[1..]))
      case (Some(v), Some(vs)) => Some([v] + vs)
      case _ => None
  }

  /** The arguments between the parentheses. */
  function ReadArguments(types: seq<ArgType>, body: string): Option<seq<Meaning>> {
    ReadAll(types, Fields(body, |types|, StringAt(types)))
  }

  /** A line as the name and the arguments of a definition with these types. */
  function ReadLine(types: seq<ArgType>, line: string): Option<(string, seq<Meaning>)> {
    var i := First(line, '(');
    if |line| < i + 2 || line[|line| - 1] != ')' then None
    else
      match ReadArguments(types, line[i + 1..|line| - 1])
      case None => None
      case Some(vs) => Some((line[..i], vs))
  }

  lemma ReadAllCons(types: seq<ArgType>, texts: seq<string>, v: Meaning, vs: seq<Meaning>)
    requires types != [] && |types| == |texts|
    requires ReadText(types[0], texts[0]) == Some(v) && ReadAll(types[1..], texts[1..]) == Some(vs)
    ensures ReadAll(types, texts) == Some([v] + vs)
  {
  }

  lemma TextsTail(types: seq<ArgType>, vs: seq<Meaning>)
    requires ValidMeanings(types, vs) && types != []
    ensures ValidMeanings(types[1..], vs[1..])
    ensures TextsOf(types, vs)[0] == TextOf(types[0], vs[0])
    ensures TextsOf(types, vs)[1..] == TextsOf(types[1..], vs[1..])
  {
    hide TextOf, ValidMeaning;
  }

  lemma {:induction false} ReadAllTexts(types: seq<ArgType>, vs: seq<Meaning>)
    requires ValidMeanings(types, vs)
    ensures ReadAll(types, TextsOf(types, vs)) == Some(vs)
    decreases |types|
  {
    if types == [] {
    } else {
      TextsTail(types, vs);
      TextExact(types[0], TextOf(types[0], vs[0]), vs[0]);
      ReadAllTexts(types[1..], vs[1..]);
      hide ReadText, ReadAll, TextOf, ValidMeaning;
      ReadAllCons(types, TextsOf(types, vs), vs[0], vs[1..]);
      assert vs == [vs[0]] + vs[1..];
    }
  }

  /** With at most one string parameter, every argument is read back from the joined texts. */
  lemma ArgumentsReadBack(types: seq<ArgType>, vs: seq<Meaning>)
    requires AtMostOneString(types) && ValidMeanings(types, vs)
    ensures ReadArguments(types, Join(TextsOf(types, vs))) == Some(vs)
  {
    var texts := TextsOf(types, vs);
    OthersAreNoStrings(types);
    forall i | 0 <= i < |texts| && i != StringAt(types) ensures Plain(texts[i]) {
      TextIsPlain(types[i], vs[i]);
    }
    FieldsOfJoin(texts, StringAt(types));
    ReadAllTexts(types, vs);
  }

  lemma LineSplits(name: string, body: string)
    requires '(' !in name
    ensures var line := name + "(" + body + ")";
            var i := First(line, '(');
            && |line| >= i + 2 && line[|line| - 1] == ')'
            && line[..i] == name && line[i + 1..|line| - 1] == body
  {
    var line := name + "(" + body + ")";
    assert line == name + ['('] + (body + ")");
    FirstIs(name, '(', body + ")");
  }

  /** With at most one string parameter, the name and every argument are read back from the line. */
  lemma LineReadsBack(name: string, types: seq<ArgType>, vs: seq<Meaning>)
    requires '(' !in name && AtMostOneString(types) && ValidMeanings(types, vs)
    ensures ReadLine(types, Line(name, TextsOf(types, vs))) == Some((name, vs))
  {
    LineSplits(name, Join(TextsOf(types, vs)));
    ArgumentsReadBack(types, vs);
  }
}
