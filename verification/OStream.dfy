/** A C++ output stream: text plus format state. Base and fill are sticky, width lasts for one insertion. */
module OStream {
  import opened Numerals

  datatype Radix = Dec | Hex

  function Fill(c: char, n: nat): string { seq(n, _ => c) }

  function Pad(s: string, width: nat, fill: char): string {
    if |s| < width then Fill(fill, width - |s|) + s else s
  }

  class Stream {
    var text: string
    var radix: Radix
    var fill: char
    var width: nat

    constructor ()
      ensures text == "" && radix == Dec && fill == ' ' && width == 0
    {
      text, radix, fill, width := "", Dec, ' ', 0;
    }

    method Put(s: string)
      modifies this
      ensures text == old(text) + Pad(s, old(width), old(fill))
      ensures width == 0 && radix == old(radix) && fill == old(fill)
    {
      text := text + Pad(s, width, fill);
      width := 0;
    }

    method PutUnsigned(n: nat)
      modifies this
      ensures text == old(text) + Pad(Numeral(n, if old(radix) == Dec then 10 else 16), old(width), old(fill))
      ensures width == 0 && radix == old(radix) && fill == old(fill)
    {
      Put(Numeral(n, if radix == Dec then 10 else 16));
    }

    /** In hexadecimal a negative number prints as its two's complement. */
    method PutSigned(n: int, modulus: nat)
      requires 0 <= n + modulus
      modifies this
      ensures text == old(text) +
                Pad(if old(radix) == Dec then Signed(n) else Numeral(if n < 0 then n + modulus else n, 16),
                    old(width), old(fill))
      ensures width == 0 && radix == old(radix) && fill == old(fill)
    {
      Put(if radix == Dec then Signed(n) else Numeral(if n < 0 then n + modulus else n, 16));
    }

    method SetRadix(r: Radix)
      modifies this`radix
      ensures radix == r
    {
      radix := r;
    }

    method SetFill(c: char)
      modifies this`fill
      ensures fill == c
    {
      fill := c;
    }

    method SetWidth(n: nat)
      modifies this`width
      ensures width == n
    {
      width := n;
    }
  }
}
