/** Argument types and how each prints a register value. */
module ArgTypes {
  import opened Base
  import opened Numerals
  import opened OStream
  import opened RemoteMemory
  import opened Escapes

  const MAX_STR_LEN: nat := 32

  datatype ArgType = Unknown | SInt32 | UInt32 | SInt64 | UInt64 | Ptr | Str

  /** What an argument means to a reader of the line. */
  datatype Meaning =
    | Number(n: int)
    | Fault
    | Text(bytes: seq<Byte>, cut: bool)

  function UpToNul(bytes: seq<Byte>): seq<Byte>
    decreases |bytes|
  {
    if bytes == [] || bytes[0] == 0 then [] else [bytes[0]] + UpToNul(bytes[1..])
  }

  /** The value of a register at the width of a non-string type. */
  function NumberOf(t: ArgType, value: U64): int {
    match t
    case SInt32 => AsSigned(value, TWO_32)
    case UInt32 => value % TWO_32
    case SInt64 => AsSigned(value, TWO_64)
    case _ => value
  }

  /** The value at its type's width; for a string, the readable bytes before the first NUL. */
  function MeaningOf(t: ArgType, value: U64, m: Mem): Meaning {
    if t == Str then
      var read := Prefix(m, value, MAX_STR_LEN);
      if read == [] then Fault else Text(UpToNul(read), |UpToNul(read)| == MAX_STR_LEN)
    else Number(NumberOf(t, value))
  }

  predicate InRange(t: ArgType, n: int) {
    match t
    case SInt32 => -TWO_32 / 2 <= n < TWO_32 / 2
    case UInt32 => 0 <= n < TWO_32
    case SInt64 => -TWO_64 / 2 <= n < TWO_64 / 2
    case _ => 0 <= n < TWO_64
  }

  predicate ValidMeaning(t: ArgType, v: Meaning) {
    if t == Str then
      v.Fault? || (v.Text? && |v.bytes| <= MAX_STR_LEN && 0 !in v.bytes && (v.cut <==> |v.bytes| == MAX_STR_LEN))
    else v.Number? && InRange(t, v.n)
  }

  function Quoted(bytes: seq<Byte>, cut: bool): string {
    "\"" + EscapeAll(bytes) + "\"" + if cut then "..." else ""
  }

  function NumberText(t: ArgType, n: int): string
    requires InRange(t, n)
  {
    match t
    case Unknown => "[0x" + Numeral(n, 16) + "]"
    case Ptr => if n == 0 then "NULL" else "0x" + Numeral(n, 16)
    case _ => Signed(n)
  }

  /** The text of an argument, formatted alone. */
  function TextOf(t: ArgType, v: Meaning): string
    requires ValidMeaning(t, v)
  {
    if t == Str then (if v.Fault? then "<fault>" else Quoted(v.bytes, v.cut)) else NumberText(t, v.n)
  }

  lemma UpToNulFacts(bytes: seq<Byte>)
    ensures |UpToNul(bytes)| <= |bytes| && 0 !in UpToNul(bytes)
    ensures UpToNul(bytes) == bytes[..|UpToNul(bytes)|]
    ensures |UpToNul(bytes)| < |bytes| ==> bytes[|UpToNul(bytes)|] == 0
  {
    if bytes == [] || bytes[0] == 0 {
    } else {
      UpToNulFacts(bytes[1..]);
    }
  }

  lemma PrefixLength(m: Mem, value: U64, n: nat)
    ensures |Prefix(m, value, n)| <= n
    decreases n
  {
  }

  lemma MeaningIsValid(t: ArgType, value: U64, m: Mem)
    ensures ValidMeaning(t, MeaningOf(t, value, m))
  {
    if t.Str? {
      PrefixLength(m, value, MAX_STR_LEN);
      UpToNulFacts(Prefix(m, value, MAX_STR_LEN));
    }
  }

  function ArgText(t: ArgType, value: U64, m: Mem): string {
    MeaningIsValid(t, value, m);
    TextOf(t, MeaningOf(t, value, m))
  }

  // ---- the writers ---------------------------------------------------------

  lemma PadHex(b: Byte)
    ensures b < 0x80 ==> Pad(Numeral(b, 16), 2, '0') == HexPair(b)
    ensures Numeral(0xff00 + b, 16) == "ff" + HexPair(b)
  {
    assert (0xff00 + b) / 16 / 16 == 0xff && (0xff00 + b) / 16 % 16 == b / 16 && (0xff00 + b) % 16 == b % 16;
    assert Numeral(0xff, 16) == "ff";
    assert Fill('0', 1) == "0";
  }

  /** One byte of a string, through the stream's sticky format state. */
  method WriteByte(os: Stream, b: Byte)
    requires os.width == 0
    modifies os
    ensures os.width == 0 && os.text == old(os.text) + Escape(b)
  {
    if b == 0x5c {
      os.Put("\\\\");
    } else if b == 0x0a {
      os.Put("\\n");
    } else if b == 0x09 {
      os.Put("\\t");
    } else if Printable(b) {
      os.Put([b as char]);
    } else {
      os.Put("\\x");
      os.SetRadix(Hex);
      os.SetFill('0');
      os.SetWidth(2);
      PadHex(b);
      os.PutUnsigned(if b < 0x80 then b else 0xff00 + b);
    }
  }

  /** The read: up to `buf.Length` bytes in page-bounded pieces. */
  method ReadString(world: map<Pid, Mem>, target: Pid, value: U64, buf: array<Byte>) returns (r: ReadResult)
    requires 1 <= buf.Length <= PAGE
    modifies buf
    ensures r.Esrch? <==> target !in world
    ensures r.Efault? <==> target in world && Prefix(world[target], value, buf.Length) == []
    ensures r.Count? ==> r.n <= buf.Length && buf[..r.n] == Prefix(world[target], value, buf.Length)
  {
    var remote := [IoVec(value, buf.Length)];
    if value / PAGE != Addr(value, buf.Length - 1) / PAGE {
      var first := PAGE - value % PAGE;
      remote := [IoVec(value, first), IoVec(((value / PAGE + 1) * PAGE) % TWO_64, buf.Length - first)];
    }
    assert remote == Split(value, buf.Length);
    SplitCovers(value, buf.Length);
    forall p | p in world
      ensures Transferred(world[p], remote) == Prefix(world[p], value, buf.Length)
      ensures |Transferred(world[p], remote)| <= buf.Length
    {
      SplitReadIsPrefix(world[p], value, buf.Length);
      PrefixLength(world[p], value, buf.Length);
    }
    r := ProcessVmReadv(world, target, buf, remote);
  }

  lemma EscapeSnoc(bytes: seq<Byte>, i: nat)
    requires i < |bytes|
    ensures EscapeAll(bytes[..i + 1]) == EscapeAll(bytes[..i]) + Escape(bytes[i])
  {
    EscapeAllSnoc(bytes[..i], bytes[i]);
    assert bytes[..i] + [bytes[i]] == bytes[..i + 1];
  }

  /** The escape loop: everything read before the first NUL. */
  method WriteBody(os: Stream, buf: array<Byte>, n: nat) returns (i: nat)
    requires os.width == 0 && n <= buf.Length
    modifies os
    ensures os.width == 0
    ensures i == |UpToNul(buf[..n])| && os.text == old(os.text) + EscapeAll(UpToNul(buf[..n]))
  {
    ghost var before, read := os.text, buf[..n];
    ghost var body := UpToNul(read);
    UpToNulFacts(read);
    i := 0;
    while i < n && buf[i] != 0
      invariant 0 <= i <= |body| <= n
      invariant os.width == 0
      invariant os.text == before + EscapeAll(body[..i])
    {
      assert read[i] == buf[i];
      WriteByte(os, buf[i]);
      EscapeSnoc(body, i);
      Regroup(before, EscapeAll(body[..i]), Escape(body[i]));
      i := i + 1;
    }
    assert i < n ==> read[i] == 0;
    assert body[..i] == body;
  }

  lemma QuotedAppends(before: string, body: string, tail: string)
    ensures before + "\"" + body + "\"" + tail == before + ("\"" + body + "\"" + tail)
  {
  }

  /** What was read, between quotes, with an ellipsis when the buffer was filled. */
  method WriteQuoted(os: Stream, buf: array<Byte>, n: nat)
    requires os.width == 0 && n <= buf.Length
    modifies os
    ensures os.width == 0
    ensures var body := UpToNul(buf[..n]);
            os.text == old(os.text) + Quoted(body, |body| == MAX_STR_LEN)
  {
    ghost var before, body := os.text, UpToNul(buf[..n]);
    os.Put("\"");
    var i := WriteBody(os, buf, n);
    os.Put("\"");
    if i == MAX_STR_LEN {
      os.Put("...");
    }
    QuotedAppends(before, EscapeAll(body), if i == MAX_STR_LEN then "..." else "");
  }

  /** A string argument; false when the process is gone, which the source does not handle. */
  method WriteStr(os: Stream, value: U64, world: map<Pid, Mem>, target: Pid) returns (ok: bool)
    requires os.width == 0
    modifies os
    ensures ok <==> target in world
    ensures os.width == 0
    ensures os.text == if ok then old(os.text) + ArgText(Str, value, world[target]) else old(os.text)
  {
    var buf := new Byte[MAX_STR_LEN];
    var r := ReadString(world, target, value, buf);
    match r
    case Esrch =>
      ok := false;
    case Efault =>
      ok := true;
      os.Put("<fault>");
    case Count(n) =>
      ok := true;
      WriteQuoted(os, buf, n);
  }

  method WriteUnknown(os: Stream, value: U64)
    requires os.width == 0
    modifies os
    ensures os.width == 0 && os.text == old(os.text) + NumberText(Unknown, value)
  {
    os.Put("[0x");
    os.SetRadix(Hex);
    os.PutUnsigned(value);
    os.Put("]");
  }

  method WritePtr(os: Stream, value: U64)
    requires os.width == 0
    modifies os
    ensures os.width == 0 && os.text == old(os.text) + NumberText(Ptr, value)
  {
    if value == 0 {
      os.Put("NULL");
    } else {
      os.Put("0x");
      os.SetRadix(Hex);
      os.PutUnsigned(value);
    }
  }

  method WriteDecimal(t: ArgType, os: Stream, value: U64)
    requires os.width == 0 && (t == SInt32 || t == UInt32 || t == SInt64 || t == UInt64)
    modifies os
    ensures os.width == 0 && os.text == old(os.text) + NumberText(t, NumberOf(t, value))
  {
    os.SetRadix(Dec);
    if t == SInt32 {
      os.PutSigned(AsSigned(value, TWO_32), TWO_32);
    } else if t == UInt32 {
      os.PutUnsigned(value % TWO_32);
    } else if t == SInt64 {
      os.PutSigned(AsSigned(value, TWO_64), TWO_64);
    } else {
      os.PutUnsigned(value);
    }
  }

  /** A number prints in its own radix, whatever radix and fill earlier insertions left behind. */
  method WriteNumber(t: ArgType, os: Stream, value: U64)
    requires os.width == 0 && t != Str
    modifies os
    ensures os.width == 0
    ensures os.text == old(os.text) + NumberText(t, NumberOf(t, value))
  {
    if t == Unknown {
      WriteUnknown(os, value);
    } else if t == Ptr {
      WritePtr(os, value);
    } else {
      WriteDecimal(t, os, value);
    }
  }

  /** Any argument through the shared stream: its text is that of the argument alone. */
  method Write(t: ArgType, os: Stream, value: U64, world: map<Pid, Mem>, target: Pid) returns (ok: bool)
    requires os.width == 0
    modifies os
    ensures ok <==> (t == Str ==> target in world)
    ensures os.width == 0
    ensures os.text == if ok then old(os.text) + ArgText(t, value, if target in world then world[target] else NOWHERE)
                       else old(os.text)
  {
    if t == Str {
      ok := WriteStr(os, value, world, target);
    } else {
      WriteNumber(t, os, value);
      ok := true;
    }
  }

  /** Stands in for the memory of a process that is gone; non-string arguments do not look at it. */
  const NOWHERE: Mem := Mem({}, _ => 0)
}
