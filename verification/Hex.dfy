/** The hex decoder of the configuration loader, including what it accepts beyond hex. */
module Hex {
  import opened Base
  import opened Numerals

  function HexValue(c: char): int {
    if '0' <= c <= '9' then c as int - '0' as int
    else if 'a' <= c <= 'f' then c as int - 'a' as int + 10
    else if 'A' <= c <= 'F' then c as int - 'A' as int + 10
    else -1
  }

  predicate IsHex(c: char) { HexValue(c) >= 0 }

  /** stoul(two characters, nullptr, 16) stored in a uint8_t; None is the exception. */
  function PairValue(c: char, d: char): Option<Byte> {
    if IsHex(c) && IsHex(d) then Some(16 * HexValue(c) + HexValue(d))
    else if IsHex(c) then Some(HexValue(c))                                   // junk after a digit is ignored
    else if (IsSpace(c) || c == '+') && IsHex(d) then Some(HexValue(d))
    else if c == '-' && IsHex(d) then Some((TWO_64 - HexValue(d)) % 256)      // negated in unsigned long
    else None
  }

  /** The parts stoul reads: blanks, a sign, hex digits as far as they go, and an ignored rest. */
  datatype Parts = Parts(blanks: string, sign: string, digits: string, tail: string)

  ghost predicate Reads(s: string, p: Parts) {
    && s == p.blanks + p.sign + p.digits + p.tail
    && (forall i :: 0 <= i < |p.blanks| ==> IsSpace(p.blanks[i]))
    && (p.sign == "" || p.sign == "+" || p.sign == "-")
    && p.digits != [] && (forall i :: 0 <= i < |p.digits| ==> IsHex(p.digits[i]))
    && (p.tail == [] || !IsHex(p.tail[0]))
  }

  function HexNumber(digits: string): int {
    if digits == [] then 0 else 16 * HexNumber(digits[..|digits| - 1]) + HexValue(digits[|digits| - 1])
  }

  /** The number, negated modulo 2 to the 64 after a minus sign, cut to a byte. */
  function ByteOf(p: Parts): Byte {
    (if p.sign == "-" then 0x1_0000_0000_0000_0000 - HexNumber(p.digits) else HexNumber(p.digits)) % 256
  }

  lemma OneDigit(c: char)
    ensures HexNumber([c]) == HexValue(c)
  {
    assert [c][..0] == [];
  }

  lemma TwoDigits(c: char, d: char)
    ensures HexNumber([c, d]) == 16 * HexValue(c) + HexValue(d)
  {
    OneDigit(c);
    assert [c, d][..1] == [c];
  }

  lemma SignedShape(c: char, d: char, sign: string, digits: string)
    requires [c, d] == sign + digits && |sign| == 1 && |digits| == 1
    ensures sign == [c] && digits == [d]
  {
    assert [c, d][0] == sign[0] && [c, d][1] == digits[0];
  }

  lemma UnsignedShape(c: char, d: char, digits: string, tail: string)
    requires [c, d] == digits + tail && digits != []
    ensures (digits == [c, d] && tail == []) || (digits == [c] && tail == [d])
  {
    assert [c, d][0] == digits[0];
    if |digits| == 1 {
      assert [c, d][1] == tail[0];
    } else {
      assert [c, d][1] == digits[1];
    }
  }

  /** The ways two characters can be read. */
  lemma PairShapes(c: char, d: char, p: Parts)
    requires Reads([c, d], p)
    ensures || (IsHex(c) && IsHex(d) && p == Parts("", "", [c, d], ""))
            || (IsHex(c) && !IsHex(d) && p == Parts("", "", [c], [d]))
            || (IsSpace(c) && IsHex(d) && p == Parts([c], "", [d], ""))
            || ((c == '+' || c == '-') && IsHex(d) && p == Parts("", [c], [d], ""))
  {
    assert |p.blanks| + |p.sign| + |p.digits| + |p.tail| == 2;
    if p.blanks != [] {
      assert p.blanks + p.sign + p.digits + p.tail == p.blanks + p.digits;
      SignedShape(c, d, p.blanks, p.digits);
      assert p.blanks[0] == c && p.digits[0] == d;
    } else if p.sign != [] {
      assert p.blanks + p.sign + p.digits + p.tail == p.sign + p.digits;
      SignedShape(c, d, p.sign, p.digits);
      assert p.sign[0] == c && p.digits[0] == d;
    } else {
      assert p.blanks + p.sign + p.digits + p.tail == p.digits + p.tail;
      UnsignedShape(c, d, p.digits, p.tail);
      assert p.digits[0] == c;
      assert |p.digits| == 2 ==> p.digits[1] == d;
      assert |p.tail| == 1 ==> p.tail[0] == d;
    }
  }

  lemma PairNumber(c: char, d: char, p: Parts)
    requires Reads([c, d], p)
    ensures HexNumber(p.digits) == if |p.digits| == 2 then 16 * HexValue(c) + HexValue(d)
                                   else if p.blanks == "" && p.sign == "" then HexValue(c) else HexValue(d)
  {
    PairShapes(c, d, p);
    hide HexValue, Reads;
    OneDigit(c);
    OneDigit(d);
    TwoDigits(c, d);
  }

  lemma PairByte(c: char, d: char, p: Parts)
    requires Reads([c, d], p)
    ensures PairValue(c, d) == Some(ByteOf(p))
  {
    PairShapes(c, d, p);
    PairNumber(c, d, p);
    hide Reads, HexNumber;
    if |p.digits| == 2 {
      assert IsHex(c) && IsHex(d);
    }
  }

  lemma PairParts(c: char, d: char) returns (p: Parts)
    requires PairValue(c, d).Some?
    ensures Reads([c, d], p)
  {
    if IsHex(c) && IsHex(d) {
      p := Parts("", "", [c, d], "");
    } else if IsHex(c) {
      p := Parts("", "", [c], [d]);
    } else if IsSpace(c) {
      p := Parts([c], "", [d], "");
    } else {
      p := Parts("", [c], [d], "");
    }
  }

  /** The value of a pair is exactly what stoul reads from it, by the spelling of its two characters. */
  lemma PairExact(c: char, d: char, b: Byte)
    ensures PairValue(c, d) == Some(b) <==> exists p :: Reads([c, d], p) && ByteOf(p) == b
  {
    hide PairValue, Reads, ByteOf;
    forall p | Reads([c, d], p) ensures PairValue(c, d) == Some(ByteOf(p)) {
      PairByte(c, d, p);
    }
    if PairValue(c, d).Some? {
      var p := PairParts(c, d);
    }
  }

  /** Every pair of characters can be read. */
  predicate Readable(hex: string)
    requires |hex| % 2 == 0
  {
    forall i :: 0 <= i < |hex| / 2 ==> PairValue(hex[2 * i], hex[2 * i + 1]).Some?
  }

  /** The loop of hex2bytes. It fails exactly on odd lengths and on unreadable pairs. */
  method Hex2Bytes(hex: string) returns (r: Option<seq<Byte>>)
    ensures r.Some? <==> |hex| % 2 == 0 && Readable(hex)
    ensures r.Some? ==> |r.value| == |hex| / 2
    ensures r.Some? ==> forall k :: 0 <= k < |r.value| ==> Some(r.value[k]) == PairValue(hex[2 * k], hex[2 * k + 1])
  {
    if |hex| % 2 != 0 {
      return None;
    }
    var bytes: seq<Byte> := [];
    var i := 0;
    while i < |hex|
      invariant 0 <= i <= |hex| && i % 2 == 0 && |bytes| == i / 2
      invariant forall k :: 0 <= k < |bytes| ==> Some(bytes[k]) == PairValue(hex[2 * k], hex[2 * k + 1])
    {
      var b := PairValue(hex[i], hex[i + 1]);
      if b.None? {
        assert PairValue(hex[2 * (i / 2)], hex[2 * (i / 2) + 1]).None?;
        return None;
      }
      bytes := bytes + [b.value];
      i := i + 2;
    }
    return Some(bytes);
  }

  /** The decoder as a function, for use in specifications. */
  function Decoded(hex: string): (r: Option<seq<Byte>>)
    ensures r.Some? <==> |hex| % 2 == 0 && Readable(hex)
    ensures r.Some? ==> |r.value| == |hex| / 2
    ensures r.Some? ==> forall k :: 0 <= k < |r.value| ==> Some(r.value[k]) == PairValue(hex[2 * k], hex[2 * k + 1])
  {
    if |hex| % 2 == 0 && Readable(hex)
    then Some(seq<Byte>(|hex| / 2, k requires 0 <= k < |hex| / 2 => PairValue(hex[2 * k], hex[2 * k + 1]).value))
    else None
  }

  // ---- encoding ----------------------------------------------------------------

  function HexDigit(d: nat, upper: bool): char
    requires d < 16
  {
    if d < 10 then '0' + d as char else if upper then 'A' + (d - 10) as char else 'a' + (d - 10) as char
  }

  /** Hex encoding, in upper or lower case. */
  function Encode(bytes: seq<Byte>, upper: bool): string {
    if bytes == [] then []
    else [HexDigit(bytes[0] / 16, upper), HexDigit(bytes[0] % 16, upper)] + Encode(bytes[1..], upper)
  }

  lemma HexDigitRoundTrip(d: nat, upper: bool)
    requires d < 16
    ensures HexValue(HexDigit(d, upper)) == d
  {
  }

  lemma {:induction false} EncodeAt(bytes: seq<Byte>, upper: bool, k: nat)
    requires k < |bytes|
    ensures |Encode(bytes, upper)| == 2 * |bytes|
    ensures Encode(bytes, upper)[2 * k] == HexDigit(bytes[k] / 16, upper)
    ensures Encode(bytes, upper)[2 * k + 1] == HexDigit(bytes[k] % 16, upper)
    decreases |bytes|
  {
    if |bytes| == 1 {
    } else {
      EncodeAt(bytes[1..], upper, if k > 0 then k - 1 else 0);
    }
  }

  /** Decoding an encoding, in either case, gives back the bytes. */
  lemma DecodeEncode(bytes: seq<Byte>, upper: bool)
    ensures Decoded(Encode(bytes, upper)) == Some(bytes)
  {
    var hex := Encode(bytes, upper);
    forall k | 0 <= k < |bytes|
      ensures |hex| == 2 * |bytes| && PairValue(hex[2 * k], hex[2 * k + 1]) == Some(bytes[k])
    {
      EncodeAt(bytes, upper, k);
      HexDigitRoundTrip(bytes[k] / 16, upper);
      HexDigitRoundTrip(bytes[k] % 16, upper);
    }
    assert |hex| == 2 * |bytes| by {
      if bytes != [] {
        EncodeAt(bytes, upper, 0);
      }
    }
    assert Readable(hex);
    forall k | 0 <= k < |bytes| ensures Decoded(hex).value[k] == bytes[k] {
      assert Some(Decoded(hex).value[k]) == PairValue(hex[2 * k], hex[2 * k + 1]);
    }
    assert |Decoded(hex).value| == |bytes|;
    assert Decoded(hex).value == bytes;
  }

  predicate Lower(c: char) { '0' <= c <= '9' || 'a' <= c <= 'f' }

  /** Lower-case hex digits only. */
  predicate LowerHex(hex: string) {
    forall i :: 0 <= i < |hex| ==> Lower(hex[i])
  }

  lemma PairEncodes(c: char, d: char)
    requires PairValue(c, d).Some?
    ensures var b := PairValue(c, d).value;
            Lower(c) && Lower(d) <==> HexDigit(b / 16, false) == c && HexDigit(b % 16, false) == d
  {
  }

  /** The decoder loses nothing exactly on even-length strings of lower-case hex digits; everything else it
      accepts (upper case, signs, blanks, trailing junk) decodes to bytes that encode differently. */
  lemma EncodeDecodeIff(hex: string)
    requires Decoded(hex).Some?
    ensures Encode(Decoded(hex).value, false) == hex <==> LowerHex(hex)
  {
    var bytes := Decoded(hex).value;
    var back := Encode(bytes, false);
    forall i | 0 <= i < |bytes|
      ensures |back| == |hex|
      ensures back[2 * i] == HexDigit(bytes[i] / 16, false) && back[2 * i + 1] == HexDigit(bytes[i] % 16, false)
      ensures Lower(hex[2 * i]) && Lower(hex[2 * i + 1]) <==> back[2 * i] == hex[2 * i] && back[2 * i + 1] == hex[2 * i + 1]
    {
      EncodeAt(bytes, false, i);
      PairEncodes(hex[2 * i], hex[2 * i + 1]);
    }
    assert bytes == [] ==> back == hex;
    if LowerHex(hex) {
      forall i | 0 <= i < |hex| ensures back[i] == hex[i] {
        assert i == 2 * (i / 2) || i == 2 * (i / 2) + 1;
        assert Lower(hex[2 * (i / 2)]) && Lower(hex[2 * (i / 2) + 1]);
      }
    }
    if back == hex {
      forall i | 0 <= i < |hex| ensures Lower(hex[i]) {
        assert i == 2 * (i / 2) || i == 2 * (i / 2) + 1;
        assert back[2 * (i / 2)] == hex[2 * (i / 2)];
      }
    }
  }

  /** A string that is no hex and is accepted: a negative number, stored in a byte. */
  lemma NegativePairAccepted()
    ensures Decoded("-1") == Some([255]) && Encode([255], false) != "-1"
  {
    var hex := "-1";
    assert PairValue(hex[2 * 0], hex[2 * 0 + 1]) == Some(255);
    assert Readable(hex);
    assert Some(Decoded(hex).value[0]) == Some(255);
    assert Decoded(hex).value == [255];
    EncodeDecodeIff(hex);
    assert !Lower(hex[0]);
  }
}
