/** Hexadecimal text as numbers, most significant digit first. */
module Hex {
  import opened Arith

  function Nibble(c: char): (n: int)
    ensures -1 <= n < 16
  {
    if '0' <= c <= '9' then c as int - '0' as int
    else if 'a' <= c <= 'f' then 10 + c as int - 'a' as int
    else if 'A' <= c <= 'F' then 10 + c as int - 'A' as int
    else -1
  }

  /** The digits are 0 to 9 and a to f in the order of their codes, capitals standing for the small letters. */
  lemma NibbleOrder(c: char, d: char)
    ensures 0 <= Nibble(c) <==> 48 <= c as int < 58 || 65 <= c as int < 71 || 97 <= c as int < 103
    ensures 0 <= Nibble(c) && 0 <= Nibble(d) && !('A' <= c <= 'F') && !('A' <= d <= 'F') ==> (c < d <==> Nibble(c) < Nibble(d))
    ensures 'A' <= c <= 'F' && d as int == c as int + 32 ==> Nibble(c) == Nibble(d)
  {}

  /** The text after an optional "0x" or "0X". */
  function StripPrefix(hex: string): string {
    if |hex| >= 2 && hex[0] == '0' && (hex[1] == 'x' || hex[1] == 'X') then hex[2..] else hex
  }

  predicate HexDigits(s: string) {
    forall i :: 0 <= i < |s| ==> Nibble(s[i]) >= 0
  }

  ghost function HexNumber(s: string): int {
    if s == "" then 0 else 16 * HexNumber(s[..|s| - 1]) + Nibble(s[|s| - 1])
  }

  lemma {:induction false} HexBound(s: string)
    requires HexDigits(s)
    ensures 0 <= HexNumber(s) < Pow(16, |s|)
  {
    if s != "" { HexBound(s[..|s| - 1]); }
  }

  lemma {:induction false} HexConcat(s: string, t: string)
    ensures HexNumber(s + t) == HexNumber(s) * Pow(16, |t|) + HexNumber(t)
  {
    if t == "" {
      assert s + t == s;
    } else {
      var u := t[..|t| - 1];
      assert (s + t)[..|s + t| - 1] == s + u;
      HexConcat(s, u);
      hide Nibble;
      Sixteenfold(HexNumber(s), Pow(16, |u|));
    }
  }

  lemma Sixteenfold(a: int, w: int)
    ensures 16 * (a * w) == a * (16 * w)
  {}

  /** Appending one digit. */
  lemma HexSnoc(s: string, c: char)
    ensures HexNumber(s + [c]) == 16 * HexNumber(s) + Nibble(c)
  {
    assert (s + [c])[..|s|] == s;
  }

  lemma {:induction false} HexZeros(z: string)
    requires forall i :: 0 <= i < |z| ==> z[i] == '0'
    ensures HexNumber(z) == 0
  {
    if z != "" { HexZeros(z[..|z| - 1]); }
  }

  /** Leading zeros do not change the number. */
  lemma HexPadded(z: string, s: string)
    requires forall i :: 0 <= i < |z| ==> z[i] == '0'
    ensures HexNumber(z + s) == HexNumber(s)
  {
    HexZeros(z);
    HexConcat(z, s);
  }
}
