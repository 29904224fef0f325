/** How a string argument is escaped, and the decoder that shows nothing is lost. */
module Escapes {
  import opened Base
  import opened Numerals

  /** isprint in the C locale; a byte from 0x80 up is a negative char and is not printable. */
  predicate Printable(b: Byte) { 0x20 <= b <= 0x7e }

  function HexPair(b: Byte): string { [Digit(b / 16), Digit(b % 16)] }

  /** One byte. A negative char is widened to 16 bits, hence four digits beginning with ff. */
  function Escape(b: Byte): string {
    if b == 0x5c then "\\\\"
    else if b == 0x0a then "\\n"
    else if b == 0x09 then "\\t"
    else if Printable(b) then [b as char]
    else if b < 0x80 then "\\x" + HexPair(b)
    else "\\xff" + HexPair(b)
  }

  function EscapeAll(bytes: seq<Byte>): string {
    if bytes == [] then [] else EscapeAll(bytes[..|bytes| - 1]) + Escape(bytes[|bytes| - 1])
  }

  /** Control characters other than newline and tab. */
  predicate NeedsHex(b: Byte) { (b < 0x20 && b != 0x0a && b != 0x09) || b == 0x7f }

  function HexByte(c: char, d: char): Option<Byte> {
    var h, l := DigitValue(c), DigitValue(d);
    if h < 0 || l < 0 then None else Some(16 * h + l)
  }

  /** Reads one escaped byte off the front: each byte in its one proper form. Backslash, newline and tab have
      a short form, other printable bytes stand for themselves, the rest is hexadecimal; from 0x80 up the two
      digits follow ff. */
  function Unescape(s: string): Option<(Byte, string)>
    requires s != []
  {
    if s[0] != '\\' then
      if ' ' <= s[0] <= '~' then Some((s[0] as int, s[1..])) else None
    else if |s| < 2 then None
    else if s[1] == '\\' then Some((0x5c, s[2..]))
    else if s[1] == 'n' then Some((0x0a, s[2..]))
    else if s[1] == 't' then Some((0x09, s[2..]))
    else if s[1] != 'x' || |s| < 4 then None
    else if s[2] == 'f' && s[3] == 'f' then
      if |s| >= 6 && HexByte(s[4], s[5]).Some? && HexByte(s[4], s[5]).value >= 0x80
      then Some((HexByte(s[4], s[5]).value, s[6..])) else None
    else if HexByte(s[2], s[3]).Some? && NeedsHex(HexByte(s[2], s[3]).value)
    then Some((HexByte(s[2], s[3]).value, s[4..])) else None
  }

  function UnescapeAll(s: string): Option<seq<Byte>>
    decreases |s|
  {
    if s == [] then Some([])
    else
      var first := Unescape(s);
      if first.None? || |first.value.1| >= |s| then None
      else
        var rest := UnescapeAll(first.value.1);
        if rest.None? then None else Some([first.value.0] + rest.value)
  }

  lemma HexPairReads(b: Byte)
    ensures HexByte(HexPair(b)[0], HexPair(b)[1]) == Some(b)
    ensures b < 0x80 ==> HexPair(b)[0] != 'f'
  {
    DigitRoundTrip(b / 16);
    DigitRoundTrip(b % 16);
  }

  lemma UnescapeHex(b: Byte, rest: string)
    ensures NeedsHex(b) ==> Unescape("\\x" + HexPair(b) + rest) == Some((b, rest))
    ensures b >= 0x80 ==> Unescape("\\xff" + HexPair(b) + rest) == Some((b, rest))
  {
    HexPairReads(b);
    var s, t := "\\x" + HexPair(b) + rest, "\\xff" + HexPair(b) + rest;
    assert s[2] == HexPair(b)[0] && s[3] == HexPair(b)[1] && s[4..] == rest;
    assert t[4] == HexPair(b)[0] && t[5] == HexPair(b)[1] && t[6..] == rest;
  }

  /** The escapes are uniquely readable whatever follows them, although their widths differ. */
  lemma UnescapeFirst(b: Byte, rest: string)
    ensures Escape(b) + rest != []
    ensures Unescape(Escape(b) + rest) == Some((b, rest))
  {
    var s := Escape(b) + rest;
    if !Printable(b) && b != 0x0a && b != 0x09 {
      UnescapeHex(b, rest);
    } else {
      assert s[|Escape(b)|..] == rest;
    }
  }

  lemma HexByteReads(c: char, d: char)
    requires HexByte(c, d).Some?
    ensures HexPair(HexByte(c, d).value) == [c, d]
  {
    DigitOfValue(c);
    DigitOfValue(d);
  }

  /** A text can be read as a byte and a rest only if it is that byte's escape and the rest. */
  lemma UnescapeOnly(s: string)
    requires s != [] && Unescape(s).Some?
    ensures s == Escape(Unescape(s).value.0) + Unescape(s).value.1
  {
    var (b, rest) := Unescape(s).value;
    if s[0] != '\\' {
      assert s == [s[0]] + rest;
    } else if s[1] != 'x' {
      assert s == [s[0], s[1]] + rest;
    } else if s[2] == 'f' && s[3] == 'f' {
      HexByteReads(s[4], s[5]);
      assert s == [s[0], s[1], s[2], s[3], s[4], s[5]] + rest;
    } else {
      HexByteReads(s[2], s[3]);
      assert s == [s[0], s[1], s[2], s[3]] + rest;
    }
  }

  lemma EscapeAllSnoc(bytes: seq<Byte>, b: Byte)
    ensures EscapeAll(bytes + [b]) == EscapeAll(bytes) + Escape(b)
  {
    assert (bytes + [b])[..|bytes|] == bytes;
  }

  lemma Regroup(a: string, b: string, c: string)
    ensures a + b + c == a + (b + c)
  {
  }

  lemma FrontAndLast(b: Byte, bytes: seq<Byte>)
    requires bytes != []
    ensures bytes[..|bytes| - 1] + [bytes[|bytes| - 1]] == bytes
    ensures [b] + bytes[..|bytes| - 1] + [bytes[|bytes| - 1]] == [b] + bytes
  {
  }

  lemma {:induction false} EscapeAllCons(b: Byte, bytes: seq<Byte>)
    ensures EscapeAll([b] + bytes) == Escape(b) + EscapeAll(bytes)
    decreases |bytes|
  {
    hide Escape;
    if bytes == [] {
      EscapeAllSnoc([], b);
      assert [b] + bytes == [] + [b];
      assert Escape(b) + [] == [] + Escape(b);
    } else {
      hide EscapeAll;
      var front, last := bytes[..|bytes| - 1], bytes[|bytes| - 1];
      FrontAndLast(b, bytes);
      EscapeAllCons(b, front);
      EscapeAllSnoc([b] + front, last);
      EscapeAllSnoc(front, last);
      Regroup(Escape(b), EscapeAll(front), Escape(last));
    }
  }

  /** Decoding an escaped string gives back exactly its bytes. */
  lemma {:induction false} EscapeRoundTrip(bytes: seq<Byte>)
    ensures UnescapeAll(EscapeAll(bytes)) == Some(bytes)
    decreases |bytes|
  {
    if bytes == [] {
    } else {
      var rest := bytes[1..];
      assert bytes == [bytes[0]] + rest;
      EscapeAllCons(bytes[0], rest);
      UnescapeFirst(bytes[0], EscapeAll(rest));
      EscapeRoundTrip(rest);
    }
  }

  lemma {:induction false} UnescapeAllOnly(s: string)
    requires UnescapeAll(s).Some?
    ensures s == EscapeAll(UnescapeAll(s).value)
    decreases |s|
  {
    if s == [] {
    } else {
      UnescapeOnly(s);
      var (b, rest) := Unescape(s).value;
      UnescapeAllOnly(rest);
      EscapeAllCons(b, UnescapeAll(rest).value);
    }
  }

  /** Each string of bytes has exactly one escaped text. */
  lemma EscapeExact(s: string, bytes: seq<Byte>)
    ensures UnescapeAll(s) == Some(bytes) <==> s == EscapeAll(bytes)
  {
    EscapeRoundTrip(bytes);
    if UnescapeAll(s).Some? {
      UnescapeAllOnly(s);
    }
  }

  predicate PrintableText(s: string) { forall i :: 0 <= i < |s| ==> ' ' <= s[i] <= '~' }

  lemma DigitPrintable(d: nat)
    requires d < 16
    ensures ' ' <= Digit(d) <= '~'
  {
    DigitRoundTrip(d);
  }

  lemma EscapePrintable(b: Byte)
    ensures PrintableText(Escape(b))
  {
    DigitPrintable(b / 16);
    DigitPrintable(b % 16);
  }

  lemma {:induction false} EscapeAllPrintable(bytes: seq<Byte>)
    ensures PrintableText(EscapeAll(bytes))
  {
    hide Escape;
    if bytes == [] {
    } else {
      EscapeAllPrintable(bytes[..|bytes| - 1]);
      EscapePrintable(bytes[|bytes| - 1]);
    }
  }
}
