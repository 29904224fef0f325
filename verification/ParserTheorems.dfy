/** What the rendered line of a call guarantees. */
module ParserTheorems {
  import opened Base
  import opened Kernel
  import opened Numerals
  import opened RemoteMemory
  import opened Escapes
  import opened ArgTypes
  import opened SyscallDefs
  import opened LineReader
  import opened LineCodec
  import opened Parser

  function MemoryOf(world: map<Pid, Mem>, target: Pid): Mem {
    if target in world then world[target] else NOWHERE
  }

  // ---- losslessness ---------------------------------------------------------

  function Fields7(call: Call): seq<string> { [Numeral(call.nr, 10)] + HexTexts(call.args) }

  lemma FallbackFields(call: Call)
    ensures |Fields7(call)| == 7
    ensures forall i :: 0 <= i < 7 ==> AllOrdinary(Fields7(call)[i]) && Plain(Fields7(call)[i]) && PrintableText(Fields7(call)[i])
  {
    NumeralIsOrdinary(call.nr, 10);
    forall i | 0 <= i < 6 ensures AllOrdinary(HexTexts(call.args)[i]) {
      NumeralIsOrdinary(call.args[i], 16);
    }
    forall i | 0 <= i < 7 ensures Plain(Fields7(call)[i]) && PrintableText(Fields7(call)[i]) {
      assert AllOrdinary(Fields7(call)[i]);
      OrdinaryIsPlain(Fields7(call)[i]);
    }
  }

  function ReadRegister(text: string): Option<U64> {
    if |text| > 2 && text[..2] == "0x" then
      match ReadNatural(text[2..], 16)
      case None => None
      case Some(n) => if n < TWO_64 then var r: U64 := n; Some(r) else None
    else None
  }

  function ReadRegisters(texts: seq<string>): Option<seq<U64>> {
    if texts == [] then Some([])
    else
      match (ReadRegister(texts[0]), ReadRegisters(texts[1..]))
      case (Some(r), Some(rs)) => Some([r] + rs)
      case _ => None
  }

  /** A line of a call without a definition: "syscall" or, from the 32-bit interface, "syscall32", with the
      number in decimal and the six registers in hexadecimal. */
  function ReadFallback(line: string): Option<Call> {
    var i := First(line, '(');
    if |line| < i + 2 || line[|line| - 1] != ')' || (line[..i] != "syscall" && line[..i] != "syscall32") then None
    else
      var fields := Fields(line[i + 1..|line| - 1], 7, 0);
      if fields == [] then None
      else
        match (ReadNatural(fields[0], 10), ReadRegisters(fields[1..]))
        case (Some(nr), Some(args)) =>
          if nr < TWO_64 && |args| == 6 then Some(Call(nr, args, line[..i] == "syscall32")) else None
        case _ => None
  }

  lemma RegisterReads(r: U64)
    ensures ReadRegister(HexText(r)) == Some(r)
  {
    assert HexText(r)[..2] == "0x" && HexText(r)[2..] == Numeral(r, 16);
    NaturalExact(Numeral(r, 16), r, 16);
  }

  lemma {:induction false} RegistersRead(texts: seq<string>, rs: seq<U64>)
    requires |texts| == |rs| && forall i :: 0 <= i < |rs| ==> texts[i] == HexText(rs[i])
    ensures ReadRegisters(texts) == Some(rs)
    decreases |rs|
  {
    if rs == [] {
    } else {
      hide HexText;
      RegisterReads(rs[0]);
      RegistersRead(texts[1..], rs[1..]);
      assert rs == [rs[0]] + rs[1..];
    }
  }

  lemma FallbackShape(c: Call)
    ensures var line, i := Fallback(c), First(Fallback(c), '(');
            && |line| >= i + 2 && line[|line| - 1] == ')'
            && line[..i] == (if c.int80 then "syscall32" else "syscall")
            && Fields(line[i + 1..|line| - 1], 7, 0) == Fields7(c)
  {
    FallbackFields(c);
    FieldsOfJoin(Fields7(c), 0);
    hide Fields, Join, Fields7;
    LineSplits(if c.int80 then "syscall32" else "syscall", Join(Fields7(c)));
  }

  lemma FieldsRead(c: Call)
    ensures Fields7(c) != [] && ReadNatural(Fields7(c)[0], 10) == Some(c.nr)
    ensures ReadRegisters(Fields7(c)[1..]) == Some(c.args)
  {
    assert Fields7(c)[1..] == HexTexts(c.args);
    NaturalExact(Numeral(c.nr, 10), c.nr, 10);
    RegistersRead(HexTexts(c.args), c.args);
  }

  /** The fallback line reads back as the call: interface, number and all six registers. */
  lemma FallbackReadsBack(c: Call)
    ensures ReadFallback(Fallback(c)) == Some(c)
  {
    FallbackShape(c);
    FieldsRead(c);
    hide Fallback, Fields, Fields7, First, ReadNatural, ReadRegisters;
    assert "syscall" != "syscall32";
  }

  /** Two calls with the same fallback line are the same call. */
  lemma FallbackInjective(c1: Call, c2: Call)
    requires Fallback(c1) == Fallback(c2)
    ensures c1 == c2
  {
    FallbackReadsBack(c1);
    FallbackReadsBack(c2);
  }

  /** Names are distinct, are not the fallback heads, and contain no parenthesis. */
  ghost predicate Unambiguous(sigs: map<U64, Sig>) {
    && (forall n :: n in sigs ==> '(' !in sigs[n].name && sigs[n].name != HEAD32 && sigs[n].name != HEAD64)
    && (forall m, n :: m in sigs && n in sigs && m != n ==> sigs[m].name != sigs[n].name)
  }

  lemma NamedIsNotFallback(sigs: map<U64, Sig>, c: Call, w: map<Pid, Mem>, t: Pid, d: Call)
    requires Unambiguous(sigs) && Named(sigs, c) && Render(sigs, c, w, t).Some?
    ensures Render(sigs, c, w, t) != Some(Fallback(d))
  {
    if Render(sigs, c, w, t) == Some(Fallback(d)) {
      var s := sigs[c.nr];
      LineParts(s.name, Texts(s.types, c.args, MemoryOf(w, t)),
                if d.int80 then HEAD32 else HEAD64, Fields7(d));
    }
  }

  /** Two calls with the same line have the same number, and unless the definition has two strings, the
      same arguments up to the width of their types. Without a definition, or from the 32-bit interface, they
      are the same call, with the same six registers. */
  lemma LineDeterminesCall(sigs: map<U64, Sig>, c1: Call, w1: map<Pid, Mem>, t1: Pid, c2: Call, w2: map<Pid, Mem>, t2: Pid)
    requires Unambiguous(sigs)
    requires Render(sigs, c1, w1, t1).Some? && Render(sigs, c1, w1, t1) == Render(sigs, c2, w2, t2)
    ensures if !c1.int80 && c1.nr in sigs then
              && !c2.int80 && c1.nr == c2.nr && |sigs[c1.nr].types| <= 6
              && (AtMostOneString(sigs[c1.nr].types) ==>
                    Meanings(sigs[c1.nr].types, c1.args, MemoryOf(w1, t1)) ==
                    Meanings(sigs[c1.nr].types, c2.args, MemoryOf(w2, t2)))
            else c1 == c2
  {
    if Named(sigs, c1) && Named(sigs, c2) {
      var s1, s2 := sigs[c1.nr], sigs[c2.nr];
      var m1, m2 := MemoryOf(w1, t1), MemoryOf(w2, t2);
      LineParts(s1.name, Texts(s1.types, c1.args, m1), s2.name, Texts(s2.types, c2.args, m2));
      assert c1.nr == c2.nr;
      TextsAreTextsOf(s1.types, c1.args, m1);
      TextsAreTextsOf(s1.types, c2.args, m2);
      if AtMostOneString(s1.types) {
        ArgumentsInjective(s1.types, Meanings(s1.types, c1.args, m1), Meanings(s1.types, c2.args, m2));
      }
    } else if Named(sigs, c1) {
      NamedIsNotFallback(sigs, c1, w1, t1, c2);
    } else if Named(sigs, c2) {
      NamedIsNotFallback(sigs, c2, w2, t2, c1);
    } else {
      FallbackInjective(c1, c2);
    }
  }

  // ---- reading a rendered line ------------------------------------------------

  /** The line of a call with a definition, read with the types of that definition, gives the definition's name
      and the meaning of every argument. Without a definition, and always from the 32-bit interface, it gives
      the call itself. */
  lemma RenderedReadsBack(sigs: map<U64, Sig>, call: Call, world: map<Pid, Mem>, target: Pid)
    requires Render(sigs, call, world, target).Some?
    ensures var line := Render(sigs, call, world, target).value;
            if call.int80 || call.nr !in sigs then ReadFallback(line) == Some(call)
            else
              var sig := sigs[call.nr];
              |sig.types| <= 6 && ('(' !in sig.name && AtMostOneString(sig.types) ==>
                ReadLine(sig.types, line) ==
                Some((sig.name, Meanings(sig.types, call.args, MemoryOf(world, target)))))
  {
    if call.int80 || call.nr !in sigs {
      FallbackReadsBack(call);
    } else {
      var sig, m := sigs[call.nr], MemoryOf(world, target);
      TextsAreTextsOf(sig.types, call.args, m);
      if '(' !in sig.name && AtMostOneString(sig.types) {
        LineReadsBack(sig.name, sig.types, Meanings(sig.types, call.args, m));
      }
    }
  }

  /** What a register value means under a type name of the definition file. */
  ghost predicate NameMeans(name: string, value: U64, m: Mem, v: Meaning) {
    if name == "char*" then
      var read := Prefix(m, value, 32);
      if read == [] then v == Fault
      else
        && v.Text? && v.bytes <= read && 0 !in v.bytes && (|v.bytes| < |read| ==> read[|v.bytes|] == 0)
        && (v.cut <==> |v.bytes| == 32)
    else
      v.Number? &&
      if name == "int32_t" then -0x8000_0000 <= v.n < 0x8000_0000 && (value - v.n) % 0x1_0000_0000 == 0
      else if name == "uint32_t" then 0 <= v.n < 0x1_0000_0000 && (value - v.n) % 0x1_0000_0000 == 0
      else if name == "int64_t" then
        -0x8000_0000_0000_0000 <= v.n < 0x8000_0000_0000_0000 && (value - v.n) % 0x1_0000_0000_0000_0000 == 0
      else v.n == value
  }

  /** The form in which a type name prints. */
  ghost predicate NamePrints(name: string, v: Meaning, text: string) {
    if name == "char*" then ReadQuoted(text) == Some(v)
    else
      v.Number? &&
      if name == "unknown" then
        |text| > 4 && text[..3] == "[0x" && text[|text| - 1] == ']' && ReadNatural(text[3..|text| - 1], 16) == Some(v.n)
      else if name == "void*" then
        if v.n == 0 then text == "NULL"
        else |text| > 2 && text[..2] == "0x" && ReadNatural(text[2..], 16) == Some(v.n)
      else ReadSigned(text) == Some(v.n)
  }

  lemma SignedCongruent(value: U64, modulus: int)
    requires modulus == TWO_32 || modulus == TWO_64
    ensures -modulus / 2 <= AsSigned(value, modulus) < modulus / 2 && (value - AsSigned(value, modulus)) % modulus == 0
  {
  }

  lemma NumberNameMeans(name: string, value: U64, m: Mem)
    requires name in TYPE_NAMES && name != "char*"
    ensures TYPE_NAMES[name] != Str
    ensures NameMeans(name, value, m, MeaningOf(TYPE_NAMES[name], value, m))
  {
    SignedCongruent(value, TWO_32);
    SignedCongruent(value, TWO_64);
  }

  lemma NumberNamePrints(name: string, n: int)
    requires name in TYPE_NAMES && name != "char*" && TYPE_NAMES[name] != Str && InRange(TYPE_NAMES[name], n)
    ensures NamePrints(name, Number(n), NumberText(TYPE_NAMES[name], n))
  {
    var t := TYPE_NAMES[name];
    var text := NumberText(t, n);
    NumberReads(t, text, n);
  }

  /** The eight type names: what of the register each shows, and in which form. */
  lemma TypeNamesMean(name: string, value: U64, m: Mem)
    requires name in TYPE_NAMES
    ensures exists v :: NameMeans(name, value, m, v) && NamePrints(name, v, ArgText(TYPE_NAMES[name], value, m))
  {
    var t := TYPE_NAMES[name];
    var v := MeaningOf(t, value, m);
    MeaningIsValid(t, value, m);
    if name == "char*" {
      PrefixLength(m, value, MAX_STR_LEN);
      UpToNulFacts(Prefix(m, value, MAX_STR_LEN));
      TextExact(Str, TextOf(Str, v), v);
      assert NameMeans(name, value, m, v);
    } else {
      NumberNameMeans(name, value, m);
      NumberNamePrints(name, v.n);
    }
    assert NameMeans(name, value, m, v) && NamePrints(name, v, ArgText(t, value, m));
  }

  /** Exactly these names are known. */
  lemma KnownNames(name: string)
    ensures name in TYPE_NAMES <==>
            || name == "unknown" || name == "flags" || name == "int32_t" || name == "uint32_t"
            || name == "int64_t" || name == "uint64_t" || name == "char*" || name == "void*"
  {
  }

  // ---- no line at all ---------------------------------------------------------

  lemma StringsOf(d: Definition)
    requires Known(d)
    ensures Str in SigOf(d).types <==> "char*" in d.params
  {
    var types := SigOf(d).types;
    if Str in types {
      var i :| 0 <= i < |types| && types[i] == Str;
      assert TYPE_NAMES[d.params[i]] == Str;
    }
    if "char*" in d.params {
      var i :| 0 <= i < |d.params| && d.params[i] == "char*";
      assert types[i] == Str;
    }
  }

  /** A definition under which rendering this call ends the program. */
  predicate Fatal(d: Definition, call: Call, alive: bool) {
    !call.int80 && d.number == call.nr && (|d.params| > 6 || ("char*" in d.params && !alive))
  }

  /** Exactly when the noexcept operator() ends the program: by a definition with more than six parameters,
      or by a string argument of a process that is gone. */
  lemma RenderFailsIff(sigs: map<U64, Sig>, defs: seq<Definition>, call: Call, world: map<Pid, Mem>, target: Pid)
    requires Tabulates(sigs, defs)
    ensures Render(sigs, call, world, target).None? <==>
            exists i :: 0 <= i < |defs| && Fatal(defs[i], call, target in world)
  {
    if Named(sigs, call) {
      assert Occurs(defs, call.nr);
      forall i | 0 <= i < |defs| && defs[i].number == call.nr
        ensures Render(sigs, call, world, target).None? <==> Fatal(defs[i], call, target in world)
      {
        StringsOf(defs[i]);
      }
    }
  }

  /** The definition of open, as shipped. */
  const OPEN: Definition := Definition(2, "open", ["char*", "flags", "flags"])

  /** An input on which rendering fails: open(2) of a process killed after its entry stop was reported. */
  lemma DeadProcessHasNoLine(args: Args, target: Pid)
    ensures Tabulates(map[2 := SigOf(OPEN)], [OPEN])
    ensures Render(map[2 := SigOf(OPEN)], Call(2, args, false), map[], target).None?
  {
    var defs := [OPEN];
    assert defs[0].number == 2;
    assert Fatal(defs[0], Call(2, args, false), false);
    RenderFailsIff(map[2 := SigOf(OPEN)], defs, Call(2, args, false), map[], target);
  }

  // ---- control characters -----------------------------------------------------

  lemma {:induction false} JoinPrintable(texts: seq<string>)
    requires forall i :: 0 <= i < |texts| ==> PrintableText(texts[i])
    ensures PrintableText(Join(texts))
    decreases |texts|
  {
    if |texts| <= 1 {
    } else {
      JoinPrintable(texts[..|texts| - 1]);
    }
  }

  lemma QuotedPrintable(bytes: seq<Byte>, cut: bool)
    ensures PrintableText(Quoted(bytes, cut))
  {
    EscapeAllPrintable(bytes);
    hide EscapeAll;
  }

  lemma ArgPrintable(t: ArgType, value: U64, m: Mem)
    ensures PrintableText(ArgText(t, value, m))
  {
    MeaningIsValid(t, value, m);
    hide MeaningOf, Quoted, NumberText;
    var v := MeaningOf(t, value, m);
    if t == Str {
      if v.Text? {
        QuotedPrintable(v.bytes, v.cut);
      }
    } else {
      TextIsPlain(t, v);
    }
  }

  /** With printable definition names, a rendered line has no control character, whatever the process's
      registers and memory hold. */
  lemma RenderedIsPrintable(sigs: map<U64, Sig>, call: Call, world: map<Pid, Mem>, target: Pid)
    requires forall n :: n in sigs ==> PrintableText(sigs[n].name)
    requires Render(sigs, call, world, target).Some?
    ensures PrintableText(Render(sigs, call, world, target).value)
    ensures '\n' !in Render(sigs, call, world, target).value
  {
    if Named(sigs, call) {
      var sig, m := sigs[call.nr], MemoryOf(world, target);
      var texts := Texts(sig.types, call.args, m);
      forall i | 0 <= i < |texts| ensures PrintableText(texts[i]) {
        ArgPrintable(sig.types[i], call.args[i], m);
      }
      JoinPrintable(texts);
    } else {
      FallbackFields(call);
      JoinPrintable(Fields7(call));
    }
  }
}
