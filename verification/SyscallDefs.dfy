/** System call signatures and the printed line of a call. */
module SyscallDefs {
  import opened Base
  import opened OStream
  import opened RemoteMemory
  import opened ArgTypes

  datatype Sig = Sig(name: string, types: seq<ArgType>)

  function Join(texts: seq<string>): string {
    if texts == [] then ""
    else if |texts| == 1 then texts[0]
    else Join(texts[..|texts| - 1]) + ", " + texts[|texts| - 1]
  }

  function Texts(types: seq<ArgType>, args: Args, m: Mem): seq<string>
    requires |types| <= 6
  {
    seq(|types|, i requires 0 <= i < |types| => ArgText(types[i], args[i], m))
  }

  function Meanings(types: seq<ArgType>, args: Args, m: Mem): seq<Meaning>
    requires |types| <= 6
  {
    seq(|types|, i requires 0 <= i < |types| => MeaningOf(types[i], args[i], m))
  }

  function Line(name: string, texts: seq<string>): string {
    name + "(" + Join(texts) + ")"
  }

  lemma JoinSnoc(texts: seq<string>, i: nat)
    requires i < |texts|
    ensures Join(texts[..i + 1]) == Join(texts[..i]) + (if i > 0 then ", " else "") + texts[i]
  {
    assert texts[..i + 1][..i] == texts[..i];
  }

  lemma Concat4(a: string, b: string, c: string, d: string)
    ensures a + b + c + d == a + (b + c + d)
  {
  }

  class SyscallDef {
    var fname: string
    var argtypes: seq<ArgType>

    constructor (name: string)
      ensures fname == name && argtypes == []
    {
      fname := name;
      argtypes := [];
    }

    function Value(): Sig
      reads this
    {
      Sig(fname, argtypes)
    }

    method AddParam(t: ArgType)
      modifies this`argtypes
      ensures argtypes == old(argtypes) + [t]
    {
      argtypes := argtypes + [t];
    }

    /** One argument, after its separator. */
    method WriteParam(os: Stream, i: nat, args: Args, world: map<Pid, Mem>, target: Pid) returns (ok: bool)
      requires os.width == 0 && i < |argtypes| <= 6
      modifies os
      ensures ok <==> (argtypes[i] == Str ==> target in world)
      ensures os.width == 0
      ensures ok ==> os.text == old(os.text) + (if i > 0 then ", " else "") +
                                Texts(argtypes, args, if target in world then world[target] else NOWHERE)[i]
    {
      if i > 0 {
        os.Put(", ");
      }
      assert os.text == old(os.text) + if i > 0 then ", " else "";
      ok := ArgTypes.Write(argtypes[i], os, args[i], world, target);
    }

    /** The arguments through one shared stream: the text of each does not depend on the others. */
    method WriteParams(os: Stream, args: Args, world: map<Pid, Mem>, target: Pid) returns (ok: bool)
      requires os.width == 0 && |argtypes| <= 6
      modifies os
      ensures ok <==> (Str in argtypes ==> target in world)
      ensures ok ==> os.width == 0
      ensures ok ==> os.text == old(os.text) + Join(Texts(argtypes, args, if target in world then world[target] else NOWHERE))
    {
      ghost var texts := Texts(argtypes, args, if target in world then world[target] else NOWHERE);
      ghost var before := os.text;
      var i := 0;
      while i < |argtypes|
        invariant 0 <= i <= |argtypes|
        invariant os.width == 0
        invariant os.text == before + Join(texts[..i])
        invariant Str in argtypes[..i] ==> target in world
      {
        ok := WriteParam(os, i, args, world, target);
        if !ok {
          assert argtypes[i] == Str;
          return;
        }
        JoinSnoc(texts, i);
        Concat4(before, Join(texts[..i]), if i > 0 then ", " else "", texts[i]);
        assert argtypes[..i + 1] == argtypes[..i] + [argtypes[i]];
        i := i + 1;
      }
      assert argtypes[..i] == argtypes && texts[..i] == texts;
      return true;
    }

    /** The whole line. False when the size assertion fails or the process is gone. */
    method Write(os: Stream, args: Args, world: map<Pid, Mem>, target: Pid) returns (ok: bool)
      requires os.width == 0
      modifies os
      ensures ok <==> |argtypes| <= 6 && (Str in argtypes ==> target in world)
      ensures ok ==> os.width == 0
      ensures ok ==>
                os.text == old(os.text) + Line(fname, Texts(argtypes, args, if target in world then world[target] else NOWHERE))
    {
      if |argtypes| > 6 {
        return false;
      }
      ghost var before, texts := os.text, Texts(argtypes, args, if target in world then world[target] else NOWHERE);
      os.Put(fname);
      os.Put("(");
      ok := WriteParams(os, args, world, target);
      if ok {
        os.Put(")");
        Concat4(before, fname + "(", Join(texts), ")");
        assert before + (fname + "(") == before + fname + "(";
      }
    }
  }
}
