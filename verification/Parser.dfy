/** The parser: a table of definitions, a target process, and the rendering of a call. */
module Parser {
  import opened Base
  import opened Numerals
  import opened OStream
  import opened RemoteMemory
  import opened ArgTypes
  import opened SyscallDefs
  import opened Kernel

  const TYPE_NAMES: map<string, ArgType> :=
    map["unknown" := Unknown, "flags" := UInt64, "int32_t" := SInt32, "uint32_t" := UInt32,
        "int64_t" := SInt64, "uint64_t" := UInt64, "char*" := Str, "void*" := Ptr]

  /** One entry of the definition file, after JSON decoding. */
  datatype Definition = Definition(number: U64, name: string, params: seq<string>)

  datatype LoadError = UnknownType(name: string) | DuplicateNumber(number: U64)

  predicate Known(d: Definition) {
    forall i :: 0 <= i < |d.params| ==> d.params[i] in TYPE_NAMES
  }

  function SigOf(d: Definition): Sig
    requires Known(d)
  {
    Sig(d.name, seq(|d.params|, i requires 0 <= i < |d.params| => TYPE_NAMES[d.params[i]]))
  }

  predicate Distinct(defs: seq<Definition>) {
    forall i, j :: 0 <= i < j < |defs| ==> defs[i].number != defs[j].number
  }

  predicate AllKnown(defs: seq<Definition>) {
    forall i :: 0 <= i < |defs| ==> Known(defs[i])
  }

  predicate Occurs(defs: seq<Definition>, n: U64) {
    exists i :: 0 <= i < |defs| && defs[i].number == n
  }

  /** `sigs` is exactly the table these definitions describe. */
  ghost predicate Tabulates(sigs: map<U64, Sig>, defs: seq<Definition>) {
    && (forall i :: 0 <= i < |defs| ==> Known(defs[i]) && defs[i].number in sigs && sigs[defs[i].number] == SigOf(defs[i]))
    && (forall n :: n in sigs ==> Occurs(defs, n))
  }

  const HEAD32: string := "syscall32"
  const HEAD64: string := "syscall"

  function HexText(value: U64): string { "0x" + Numeral(value, 16) }

  function HexTexts(args: Args): seq<string> {
    seq(6, i requires 0 <= i < 6 => HexText(args[i]))
  }

  /** A call without a definition, or from the 32-bit interface. */
  function Fallback(call: Call): string {
    Line(if call.int80 then HEAD32 else HEAD64, [Numeral(call.nr, 10)] + HexTexts(call.args))
  }

  predicate Named(sigs: map<U64, Sig>, call: Call) {
    !call.int80 && call.nr in sigs
  }

  /** The printed line; None is std::terminate, since operator() is noexcept. */
  function Render(sigs: map<U64, Sig>, call: Call, world: map<Pid, Mem>, target: Pid): Option<string> {
    if !Named(sigs, call) then Some(Fallback(call))
    else
      var sig := sigs[call.nr];
      if |sig.types| > 6 || (Str in sig.types && target !in world) then None
      else Some(Line(sig.name, Texts(sig.types, call.args, if target in world then world[target] else NOWHERE)))
  }

  lemma NumbersSnoc(sigs: map<U64, Sig>, defs: seq<Definition>, i: nat)
    requires i < |defs| && Known(defs[i]) && Tabulates(sigs, defs[..i])
    ensures forall n :: n in sigs || n == defs[i].number ==> Occurs(defs[..i + 1], n)
  {
    var before, after := defs[..i], defs[..i + 1];
    forall n | n in sigs || n == defs[i].number
      ensures Occurs(after, n)
    {
      if n == defs[i].number {
        assert after[i].number == n;
      } else {
        var j :| 0 <= j < |before| && before[j].number == n;
        assert after[j].number == n;
      }
    }
  }

  lemma TabulatesSnoc(sigs: map<U64, Sig>, defs: seq<Definition>, i: nat)
    requires i < |defs| && Known(defs[i]) && defs[i].number !in sigs
    requires Tabulates(sigs, defs[..i]) && Distinct(defs[..i]) && AllKnown(defs[..i])
    ensures Tabulates(sigs[defs[i].number := SigOf(defs[i])], defs[..i + 1])
    ensures Distinct(defs[..i + 1]) && AllKnown(defs[..i + 1])
  {
    NumbersSnoc(sigs, defs, i);
    var before, after := defs[..i], defs[..i + 1];
    forall j | 0 <= j < |after|
      ensures Known(after[j]) && (j < i ==> after[j].number != defs[i].number)
    {
      if j < i {
        assert after[j] == before[j];
      }
    }
    forall j, l | 0 <= j < l < |after| ensures after[j].number != after[l].number {
      if l < i {
        assert before[j].number != before[l].number;
      }
    }
  }

  class Parser {
    var target: Pid
    var table: map<U64, SyscallDef>

    constructor ()
      ensures table == map[] && target == 0
    {
      target := 0;
      table := map[];
    }

    function Sigs(): map<U64, Sig>
      reads this, table.Values
    {
      map n | n in table :: table[n].Value()
    }

    method BuildDef(d: Definition) returns (error: Option<LoadError>, def: SyscallDef)
      ensures fresh(def)
      ensures error.None? <==> Known(d)
      ensures error.None? ==> def.Value() == SigOf(d)
      ensures error.Some? ==> error.value.UnknownType? && error.value.name !in TYPE_NAMES && error.value.name in d.params
    {
      def := new SyscallDef(d.name);
      var j := 0;
      while j < |d.params|
        invariant 0 <= j <= |d.params|
        invariant forall k :: 0 <= k < j ==> d.params[k] in TYPE_NAMES
        invariant def.fname == d.name
        invariant def.argtypes == seq(j, k requires 0 <= k < j => TYPE_NAMES[d.params[k]])
      {
        if d.params[j] !in TYPE_NAMES {
          error := Some(UnknownType(d.params[j]));
          return;
        }
        def.AddParam(TYPE_NAMES[d.params[j]]);
        j := j + 1;
      }
      error := None;
    }

    /** Fills the table; it succeeds exactly when every type name is known and no number repeats. */
    method Load(defs: seq<Definition>) returns (error: Option<LoadError>)
      requires table == map[]
      modifies this`table
      ensures forall n :: n in table ==> fresh(table[n])
      ensures error.None? <==> AllKnown(defs) && Distinct(defs)
      ensures error.None? ==> Tabulates(Sigs(), defs)
    {
      var i := 0;
      while i < |defs|
        invariant 0 <= i <= |defs|
        invariant forall n :: n in table ==> fresh(table[n])
        invariant AllKnown(defs[..i]) && Distinct(defs[..i])
        invariant Tabulates(Sigs(), defs[..i])
      {
        var d := defs[i];
        var e, def := BuildDef(d);
        if e.Some? {
          return e;
        }
        if d.number in table {
          assert Occurs(defs[..i], d.number);
          var j :| 0 <= j < i && defs[..i][j].number == d.number;
          assert defs[j].number == defs[i].number;
          return Some(DuplicateNumber(d.number));
        }
        ghost var sigs := Sigs();
        table := table[d.number := def];
        assert Sigs() == sigs[d.number := SigOf(d)];
        TabulatesSnoc(sigs, defs, i);
        i := i + 1;
      }
      assert defs[..i] == defs;
      return None;
    }

    method SetPid(pid: Pid)
      modifies this`target
      ensures target == pid
    {
      target := pid;
    }

    method WriteHex(oss: Stream, args: Args, i: nat)
      requires oss.width == 0 && oss.radix == Hex && i < 6
      modifies oss
      ensures oss.width == 0 && oss.radix == Hex
      ensures oss.text == old(oss.text) + HexTexts(args)[i] + if i < 5 then ", " else ")"
    {
      oss.Put("0x");
      oss.PutUnsigned(args[i]);
      oss.Put(if i < 5 then ", " else ")");
    }

    method WriteFallback(oss: Stream, call: Call)
      requires oss.width == 0
      modifies oss
      ensures oss.text == old(oss.text) + Fallback(call)
    {
      ghost var before, texts := oss.text, [Numeral(call.nr, 10)] + HexTexts(call.args);
      ghost var head := if call.int80 then HEAD32 else HEAD64;
      oss.Put(if call.int80 then HEAD32 + "(" else HEAD64 + "(");
      oss.SetRadix(Dec);
      oss.PutUnsigned(call.nr);
      oss.Put(", ");
      oss.SetRadix(Hex);
      JoinSnoc(texts, 0);
      ghost var start := before + (head + "(");
      assert oss.text == start + Join(texts[..1]) + ", ";
      var i := 0;
      while i < 6
        invariant 0 <= i <= 6
        invariant oss.width == 0 && oss.radix == Hex
        invariant oss.text == start + Join(texts[..i + 1]) + if i < 6 then ", " else ")"
      {
        WriteHex(oss, call.args, i);
        JoinSnoc(texts, i + 1);
        Concat4(start, Join(texts[..i + 1]), ", ", HexTexts(call.args)[i]);
        i := i + 1;
      }
      assert texts[..7] == texts;
      Concat4(before, head + "(", Join(texts), ")");
    }

    /** Renders a call of the current target. */
    method Apply(call: Call, world: map<Pid, Mem>) returns (line: Option<string>)
      ensures line == Render(Sigs(), call, world, target)
    {
      var oss := new Stream();
      if call.int80 || call.nr !in table {
        WriteFallback(oss, call);
        line := Some(oss.text);
        assert oss.text == "" + Fallback(call) == Fallback(call);
      } else {
        var def := table[call.nr];
        var ok := def.Write(oss, call.args, world, target);
        line := if ok then Some(oss.text) else None;
        ghost var sig := Sigs()[call.nr];
        if ok {
          ghost var whole := Line(sig.name, Texts(sig.types, call.args, if target in world then world[target] else NOWHERE));
          assert oss.text == "" + whole == whole;
        }
      }
    }
  }
}
