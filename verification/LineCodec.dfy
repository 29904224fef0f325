/** What a printed line determines, and exactly when it determines everything. */
module LineCodec {
  import opened Base
  import opened Numerals
  import opened RemoteMemory
  import opened Escapes
  import opened ArgTypes
  import opened SyscallDefs
  import opened LineReader

  /** Joined fields can be told apart if all but the k-th are free of separators. */
  lemma JoinInjective(a: seq<string>, b: seq<string>, k: nat)
    requires |a| == |b| && Join(a) == Join(b)
    requires forall i :: 0 <= i < |a| && i != k ==> Plain(a[i]) && Plain(b[i])
    ensures a == b
  {
    FieldsOfJoin(a, k);
    FieldsOfJoin(b, k);
  }

  /** One argument's text determines its meaning. */
  lemma TextInjective(t: ArgType, v1: Meaning, v2: Meaning)
    requires ValidMeaning(t, v1) && ValidMeaning(t, v2) && TextOf(t, v1) == TextOf(t, v2)
    ensures v1 == v2
  {
    TextExact(t, TextOf(t, v1), v1);
    TextExact(t, TextOf(t, v1), v2);
  }

  lemma LineParts(n1: string, t1: seq<string>, n2: string, t2: seq<string>)
    requires '(' !in n1 && '(' !in n2 && Line(n1, t1) == Line(n2, t2)
    ensures n1 == n2 && Join(t1) == Join(t2)
  {
    LineSplits(n1, Join(t1));
    LineSplits(n2, Join(t2));
  }

  /** With at most one string parameter, the joined texts determine every argument. */
  lemma ArgumentsInjective(types: seq<ArgType>, v1: seq<Meaning>, v2: seq<Meaning>)
    requires AtMostOneString(types) && ValidMeanings(types, v1) && ValidMeanings(types, v2)
    requires Join(TextsOf(types, v1)) == Join(TextsOf(types, v2))
    ensures v1 == v2
  {
    ArgumentsReadBack(types, v1);
    ArgumentsReadBack(types, v2);
  }

  /** With at most one string parameter, the line determines the name and every argument. */
  lemma LineInjective(n1: string, n2: string, types: seq<ArgType>, v1: seq<Meaning>, v2: seq<Meaning>)
    requires '(' !in n1 && '(' !in n2 && AtMostOneString(types)
    requires ValidMeanings(types, v1) && ValidMeanings(types, v2)
    requires Line(n1, TextsOf(types, v1)) == Line(n2, TextsOf(types, v2))
    ensures n1 == n2 && v1 == v2
  {
    LineReadsBack(n1, types, v1);
    LineReadsBack(n2, types, v2);
  }

  lemma TextsAreTextsOf(types: seq<ArgType>, args: Args, m: Mem)
    requires |types| <= 6
    ensures ValidMeanings(types, Meanings(types, args, m))
    ensures Texts(types, args, m) == TextsOf(types, Meanings(types, args, m))
  {
    forall i | 0 <= i < |types| ensures ValidMeaning(types[i], MeaningOf(types[i], args[i], m)) {
      MeaningIsValid(types[i], args[i], m);
    }
  }

  // ---- two strings: quotes are not escaped --------------------------------

  /** Distinct arguments never print the same line. */
  ghost predicate Lossless(name: string, types: seq<ArgType>)
    requires |types| <= 6
  {
    forall a1: Args, m1: Mem, a2: Args, m2: Mem ::
      Line(name, Texts(types, a1, m1)) == Line(name, Texts(types, a2, m2)) ==>
        Meanings(types, a1, m1) == Meanings(types, a2, m2)
  }

  /** A separator, the fields, and a final separator. */
  function Between(texts: seq<string>): string {
    if texts == [] then ", " else ", " + texts[0] + Between(texts[1..])
  }

  lemma {:induction false} JoinBetween(x: string, mid: seq<string>, y: string)
    ensures Join([x] + mid + [y]) == x + Between(mid) + y
    decreases |mid|
  {
    var all := [x] + mid + [y];
    JoinCons(all);
    if mid == [] {
      assert all[1..] == [y];
    } else {
      assert all[1..] == [mid[0]] + mid[1..] + [y];
      JoinBetween(mid[0], mid[1..], y);
      assert x + ", " + (mid[0] + Between(mid[1..]) + y) == x + (", " + mid[0] + Between(mid[1..])) + y;
    }
  }

  /** Replacing a segment by one with the same joined text does not change the joined text. */
  lemma {:induction false} JoinContext(p: seq<string>, s1: seq<string>, s2: seq<string>, r: seq<string>)
    requires |s1| == |s2| > 0 && Join(s1) == Join(s2)
    ensures Join(p + s1 + r) == Join(p + s2 + r)
    decreases |p| + |r|
  {
    var a, b := p + s1 + r, p + s2 + r;
    if p != [] {
      assert a[1..] == p[1..] + s1 + r && b[1..] == p[1..] + s2 + r;
      JoinCons(a);
      JoinCons(b);
      JoinContext(p[1..], s1, s2, r);
    } else if r != [] {
      var n := |r| - 1;
      assert a[..|a| - 1] == p + s1 + r[..n] && b[..|b| - 1] == p + s2 + r[..n];
      JoinContext(p, s1, s2, r[..n]);
    } else {
      assert a == s1 && b == s2;
    }
  }

  /** The shortest text of a number. */
  function Short(t: ArgType): Meaning { if t == Str then Fault else Number(0) }

  function Shorts(types: seq<ArgType>): seq<string> {
    seq(|types|, i requires 0 <= i < |types| => TextOf(types[i], Short(types[i])))
  }

  /** Characters that escape to themselves. */
  predicate Verbatim(s: string) { forall i :: 0 <= i < |s| ==> ' ' <= s[i] <= '~' && s[i] != '\\' }

  function Raw(s: string): seq<Byte>
    requires Verbatim(s)
  {
    seq<Byte>(|s|, i requires 0 <= i < |s| => s[i] as int)
  }

  lemma {:induction false} RawEscapes(s: string)
    requires Verbatim(s)
    ensures EscapeAll(Raw(s)) == s && 0 !in Raw(s)
  {
    if s == [] {
    } else {
      var n := |s| - 1;
      RawEscapes(s[..n]);
      assert Escape(s[n] as int) == [s[n]];
      hide Escape;
      assert Raw(s) == Raw(s[..n]) + [s[n] as int];
      EscapeAllSnoc(Raw(s[..n]), s[n] as int);
      assert s == s[..n] + [s[n]];
    }
  }

  lemma ShortText(t: ArgType)
    requires t != Str
    ensures |TextOf(t, Short(t))| <= 5 && Verbatim(TextOf(t, Short(t)))
  {
    assert Numeral(0, 16) == "0" && Numeral(0, 10) == "0";
  }

  lemma {:induction false} BetweenIsShort(types: seq<ArgType>)
    requires forall i :: 0 <= i < |types| ==> types[i] != Str
    ensures |Between(Shorts(types))| <= 2 + 7 * |types| && Verbatim(Between(Shorts(types)))
  {
    if types == [] {
    } else {
      ShortText(types[0]);
      BetweenIsShort(types[1..]);
      assert Shorts(types)[1..] == Shorts(types[1..]);
    }
  }

  // ---- every list of meanings can occur -----------------------------------

  /** A register value with the given meaning, when string i lives at the start of page i + 1. */
  function Register(t: ArgType, v: Meaning, i: nat): U64
    requires ValidMeaning(t, v) && i < 6
  {
    if t == Str then (i + 1) * PAGE
    else if v.n >= 0 then v.n
    else if t == SInt32 then v.n + TWO_32
    else v.n + TWO_64
  }

  function Cell(vs: seq<Meaning>, page: int, offset: nat): Byte {
    if 1 <= page <= |vs| && vs[page - 1].Text? && offset < |vs[page - 1].bytes| then vs[page - 1].bytes[offset] else 0
  }

  function Layout(vs: seq<Meaning>): Mem {
    Mem(set i | 0 <= i < |vs| && vs[i].Text? :: i + 1, (a: U64) => Cell(vs, a / PAGE, a % PAGE))
  }

  ghost function Registers(types: seq<ArgType>, vs: seq<Meaning>): Args
    requires |types| <= 6 && ValidMeanings(types, vs)
  {
    seq<U64>(6, i requires 0 <= i < 6 => if i < |types| then Register(types[i], vs[i], i) else 0)
  }

  lemma {:induction false} UpToNulUnique(read: seq<Byte>, bytes: seq<Byte>)
    requires bytes <= read && 0 !in bytes && (|bytes| < |read| ==> read[|bytes|] == 0)
    ensures UpToNul(read) == bytes
    decreases |bytes|
  {
    if bytes == [] {
    } else {
      UpToNulUnique(read[1..], bytes[1..]);
    }
  }

  /** Reading back one page of the layout. */
  lemma LayoutReads(vs: seq<Meaning>, i: nat, k: nat)
    requires i < |vs| && i < 6 && vs[i].Text? && |vs[i].bytes| <= MAX_STR_LEN && k < MAX_STR_LEN
    ensures var m, a := Layout(vs), Addr((i + 1) * PAGE, k);
            Readable(m, a) && m.content(a) == if k < |vs[i].bytes| then vs[i].bytes[k] else 0
  {
    var value := (i + 1) * PAGE;
    assert Addr(value, k) == value + k && (value + k) / PAGE == i + 1 && (value + k) % PAGE == k;
  }

  lemma StringRealised(vs: seq<Meaning>, i: nat)
    requires i < |vs| && i < 6 && ValidMeaning(Str, vs[i])
    ensures MeaningOf(Str, (i + 1) * PAGE, Layout(vs)) == vs[i]
  {
    var m, value := Layout(vs), (i + 1) * PAGE;
    if vs[i].Text? {
      var v := IoVec(value, MAX_STR_LEN);
      forall k | 0 <= k < MAX_STR_LEN
        ensures Readable(m, Addr(value, k))
        ensures Bytes(m, v)[k] == if k < |vs[i].bytes| then vs[i].bytes[k] else 0
      {
        LayoutReads(vs, i, k);
      }
      PrefixStep(m, value, MAX_STR_LEN, MAX_STR_LEN);
      assert Prefix(m, value, MAX_STR_LEN) == Bytes(m, v);
      UpToNulUnique(Bytes(m, v), vs[i].bytes);
    } else {
      assert value / PAGE == i + 1;
    }
  }

  lemma NumberRealised(t: ArgType, v: Meaning, i: nat, m: Mem)
    requires ValidMeaning(t, v) && t != Str && i < 6
    ensures MeaningOf(t, Register(t, v, i), m) == v
  {
    if t == SInt32 {
      assert Register(t, v, i) % TWO_32 == if v.n >= 0 then v.n else v.n + TWO_32;
    }
  }

  lemma Realised(types: seq<ArgType>, vs: seq<Meaning>)
    requires |types| <= 6 && ValidMeanings(types, vs)
    ensures Meanings(types, Registers(types, vs), Layout(vs)) == vs
  {
    var args, m := Registers(types, vs), Layout(vs);
    forall i | 0 <= i < |types|
      ensures MeaningOf(types[i], args[i], m) == vs[i]
    {
      assert ValidMeaning(types[i], vs[i]);
      if types[i] == Str {
        StringRealised(vs, i);
      } else {
        NumberRealised(types[i], vs[i], i, m);
      }
    }
  }

  // ---- the exact condition ---------------------------------------------------

  /** Meanings that differ from the shortest ones only at i and j. */
  ghost function With(types: seq<ArgType>, i: nat, x: Meaning, j: nat, y: Meaning): seq<Meaning> {
    seq(|types|, k requires 0 <= k < |types| => if k == i then x else if k == j then y else Short(types[k]))
  }

  lemma WithIsValid(types: seq<ArgType>, i: nat, x: Meaning, j: nat, y: Meaning)
    requires i < j < |types| && ValidMeaning(types[i], x) && ValidMeaning(types[j], y)
    ensures ValidMeanings(types, With(types, i, x, j, y))
  {
  }

  lemma ShortsSlice(types: seq<ArgType>, lo: nat, hi: nat)
    requires lo <= hi <= |types|
    ensures Shorts(types[lo..hi]) == Shorts(types)[lo..hi]
  {
  }

  /** A sequence that differs from another at most at i and j. */
  lemma FiveParts(s: seq<string>, base: seq<string>, i: nat, j: nat)
    requires |s| == |base| && i < j < |s| && forall k :: 0 <= k < |s| && k != i && k != j ==> s[k] == base[k]
    ensures s == base[0..i] + ([s[i]] + base[i + 1..j] + [s[j]]) + base[j + 1..|s|]
  {
  }

  lemma WithTexts(types: seq<ArgType>, i: nat, x: Meaning, j: nat, y: Meaning)
    requires i < j < |types| && ValidMeaning(types[i], x) && ValidMeaning(types[j], y)
    ensures ValidMeanings(types, With(types, i, x, j, y))
    ensures TextsOf(types, With(types, i, x, j, y)) ==
            Shorts(types[..i]) + ([TextOf(types[i], x)] + Shorts(types[i + 1..j]) + [TextOf(types[j], y)])
            + Shorts(types[j + 1..])
  {
    WithIsValid(types, i, x, j, y);
    var s := TextsOf(types, With(types, i, x, j, y));
    ShortsSlice(types, 0, i);
    ShortsSlice(types, i + 1, j);
    ShortsSlice(types, j + 1, |types|);
    assert types[0..i] == types[..i] && types[j + 1..|types|] == types[j + 1..];
    FiveParts(s, Shorts(types), i, j);
  }

  /** The two strings that make the lines collide, given the text between them. */
  function FirstTail(gap: string): Meaning
    requires Verbatim(gap)
  {
    Text(Raw(gap + "\""), false)
  }

  function SecondHead(gap: string): Meaning
    requires Verbatim(gap)
  {
    Text(Raw("\"" + gap), false)
  }

  const EMPTY: Meaning := Text([], false)

  lemma VerbatimText(s: string)
    requires Verbatim(s) && |s| < MAX_STR_LEN
    ensures ValidMeaning(Str, Text(Raw(s), false))
    ensures TextOf(Str, Text(Raw(s), false)) == "\"" + s + "\""
  {
    RawEscapes(s);
  }

  lemma SameJoin(gap: string, mid: seq<string>, x1: string, y1: string, x2: string, y2: string)
    requires gap == Between(mid)
    requires x1 == "\"\"" && y1 == "\"" + (gap + "\"") + "\""
    requires x2 == "\"" + ("\"" + gap) + "\"" && y2 == "\"\""
    ensures Join([x1] + mid + [y1]) == Join([x2] + mid + [y2])
  {
    JoinBetween(x1, mid, y1);
    JoinBetween(x2, mid, y2);
    assert x1 + gap + y1 == x2 + gap + y2;
  }

  lemma CollidingTexts(gap: string, mid: seq<string>)
    requires gap == Between(mid) && Verbatim(gap) && |gap| <= 30
    ensures ValidMeaning(Str, FirstTail(gap)) && ValidMeaning(Str, SecondHead(gap)) && ValidMeaning(Str, EMPTY)
    ensures SecondHead(gap) != EMPTY
    ensures Join([TextOf(Str, EMPTY)] + mid + [TextOf(Str, FirstTail(gap))]) ==
            Join([TextOf(Str, SecondHead(gap))] + mid + [TextOf(Str, EMPTY)])
  {
    VerbatimText(gap + "\"");
    VerbatimText("\"" + gap);
    VerbatimText("");
    assert EMPTY == Text(Raw(""), false);
    assert |SecondHead(gap).bytes| > 0;
    SameJoin(gap, mid, TextOf(Str, EMPTY), TextOf(Str, FirstTail(gap)), TextOf(Str, SecondHead(gap)), TextOf(Str, EMPTY));
  }

  /** Two valid lists of meanings with the same line refute losslessness. */
  lemma CollisionRefutes(name: string, types: seq<ArgType>, v1: seq<Meaning>, v2: seq<Meaning>)
    requires |types| <= 6 && ValidMeanings(types, v1) && ValidMeanings(types, v2)
    requires v1 != v2 && Join(TextsOf(types, v1)) == Join(TextsOf(types, v2))
    ensures !Lossless(name, types)
  {
    Realised(types, v1);
    Realised(types, v2);
    var a1, m1, a2, m2 := Registers(types, v1), Layout(v1), Registers(types, v2), Layout(v2);
    TextsAreTextsOf(types, a1, m1);
    TextsAreTextsOf(types, a2, m2);
    assert Line(name, Texts(types, a1, m1)) == Line(name, Texts(types, a2, m2));
  }

  /** Two string parameters with only numbers between them: two different calls print the same line. */
  lemma TwoStringsCollide(name: string, types: seq<ArgType>, i: nat, j: nat)
    requires |types| <= 6 && i < j < |types| && types[i] == Str && types[j] == Str
    requires forall k :: i < k < j ==> types[k] != Str
    ensures !Lossless(name, types)
  {
    var mid := Shorts(types[i + 1..j]);
    var gap := Between(mid);
    BetweenIsShort(types[i + 1..j]);
    CollidingTexts(gap, mid);
    WithTexts(types, i, EMPTY, j, FirstTail(gap));
    WithTexts(types, i, SecondHead(gap), j, EMPTY);
    JoinContext(Shorts(types[..i]),
                [TextOf(Str, EMPTY)] + mid + [TextOf(Str, FirstTail(gap))],
                [TextOf(Str, SecondHead(gap))] + mid + [TextOf(Str, EMPTY)],
                Shorts(types[j + 1..]));
    var v1, v2 := With(types, i, EMPTY, j, FirstTail(gap)), With(types, i, SecondHead(gap), j, EMPTY);
    assert v1[i] != v2[i];
    CollisionRefutes(name, types, v1, v2);
  }

  lemma {:induction false} NextString(types: seq<ArgType>, i: nat, j: nat) returns (k: nat)
    requires i < j < |types| && types[j] == Str
    ensures i < k <= j && types[k] == Str && forall l :: i < l < k ==> types[l] != Str
    decreases j - i
  {
    if l :| i < l < j && types[l] == Str {
      k := NextString(types, i, l);
    } else {
      k := j;
    }
  }

  lemma SameHead(name: string, t1: seq<string>, t2: seq<string>)
    requires Line(name, t1) == Line(name, t2)
    ensures Join(t1) == Join(t2)
  {
    var l1, l2 := Line(name, t1), Line(name, t2);
    assert l1[|name| + 1..|l1| - 1] == Join(t1) && l2[|name| + 1..|l2| - 1] == Join(t2);
  }

  /** The line determines every argument, for all registers and all memories, exactly when the definition
      has at most one string parameter. */
  lemma LosslessIff(name: string, types: seq<ArgType>)
    requires |types| <= 6
    ensures Lossless(name, types) <==> AtMostOneString(types)
  {
    if AtMostOneString(types) {
      forall a1: Args, m1: Mem, a2: Args, m2: Mem | Line(name, Texts(types, a1, m1)) == Line(name, Texts(types, a2, m2))
        ensures Meanings(types, a1, m1) == Meanings(types, a2, m2)
      {
        TextsAreTextsOf(types, a1, m1);
        TextsAreTextsOf(types, a2, m2);
        SameHead(name, Texts(types, a1, m1), Texts(types, a2, m2));
        ArgumentsInjective(types, Meanings(types, a1, m1), Meanings(types, a2, m2));
      }
    } else {
      var i, j :| 0 <= i < j < |types| && types[i] == Str && types[j] == Str;
      var j' := NextString(types, i, j);
      TwoStringsCollide(name, types, i, j');
    }
  }
}
