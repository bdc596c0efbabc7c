/** Parsing 256-bit numbers from hex text, and decompression of public keys (SEC 1 section 2.3.4). */
module Decompress {
  import opened Arith
  import opened Digits
  import opened Hex
  import opened NumberTheory
  import opened Limbs
  import opened FieldMul
  import opened FieldPow
  import opened Curve

  ghost predicate Parseable(hex: string) {
    |StripPrefix(hex)| <= 64 && HexDigits(StripPrefix(hex))
  }

  lemma Pow16Limb()
    ensures Pow(16, 16) == B
  {
    assert Pow(16, 4) == 16 * Pow(16, 3) == 256 * Pow(16, 2) == 4096 * Pow(16, 1) == 65536;
    PowMul(16, 4, 4);
    assert Pow(65536, 4) == 65536 * Pow(65536, 3) == 65536 * (65536 * Pow(65536, 2));
    assert Pow(65536, 2) == 65536 * Pow(65536, 1) == 65536 * 65536;
  }

  /** 16 hex digits as one limb. */
  method ParseLimb(digits: string) returns (ok: bool, v: U64)
    requires |digits| == 16
    ensures ok <==> HexDigits(digits)
    ensures ok ==> v == HexNumber(digits)
  {
    Pow16Limb();
    v := 0;
    var i := 0;
    while i < 16
      invariant 0 <= i <= 16
      invariant HexDigits(digits[..i]) && v == HexNumber(digits[..i])
    {
      var nibble := Nibble(digits[i]);
      if nibble < 0 { return false, 0; }
      assert digits[..i + 1] == digits[..i] + [digits[i]];
      HexSnoc(digits[..i], digits[i]);
      HexBound(digits[..i + 1]);
      PowGrows(16, i + 1, 16);
      v := (v * 16) % B + nibble;
      i := i + 1;
    }
    assert digits[..16] == digits;
    ok := true;
  }

  /** The 16 digits of limb l. */
  function Block(s: string, l: nat): string
    requires |s| == 64 && l < 4
  {
    s[(3 - l) * 16..(4 - l) * 16]
  }

  lemma FourBlocks(s: string, out: U256)
    requires |s| == 64
    requires forall l :: 0 <= l < 4 ==> out[l] == HexNumber(Block(s, l))
    ensures Val(out) == HexNumber(s)
  {
    Pow16Limb();
    var a, b, c, d := s[..16], s[16..32], s[32..48], s[48..];
    assert s == ((a + b) + c) + d;
    assert s[0..16] == a && s[48..64] == d;
    HexConcat((a + b) + c, d);
    HexConcat(a + b, c);
    HexConcat(a, b);
    ValLimbs(out);
    assert out[3] == HexNumber(s[0..16]) && out[2] == HexNumber(s[16..32]);
    assert out[1] == HexNumber(s[32..48]) && out[0] == HexNumber(s[48..64]);
  }

  lemma BlocksAreDigits(s: string)
    requires |s| == 64
    requires forall l :: 0 <= l < 4 ==> HexDigits(Block(s, l))
    ensures HexDigits(s)
  {
    forall i | 0 <= i < 64
      ensures Nibble(s[i]) >= 0
    {
      var l := 3 - i / 16;
      var block := Block(s, l);
      assert HexDigits(block) && block[i % 16] == s[i];
    }
  }

  /** Zeros in front, up to 64 characters. */
  method PadTo64(hex: string) returns (padded: string)
    ensures |padded| == if |hex| < 64 then 64 else |hex|
    ensures HexNumber(padded) == HexNumber(hex) && (HexDigits(padded) <==> HexDigits(hex))
  {
    hide HexNumber, HexDigits;
    padded := hex;
    ghost var zeros := "";
    while |padded| < 64
      invariant padded == zeros + hex && forall i :: 0 <= i < |zeros| ==> zeros[i] == '0'
      invariant |padded| <= 64 || zeros == ""
      decreases 64 - |padded|
    {
      padded := "0" + padded;
      zeros := "0" + zeros;
    }
    HexPadded(zeros, hex);
    PaddedDigits(zeros, hex);
  }

  method HexToUint256(hex: string) returns (ok: bool, out: U256)
    ensures ok <==> Parseable(hex)
    ensures ok ==> Val(out) == HexNumber(StripPrefix(hex))
  {
    hide HexNumber, Block, Val, HexDigits, StripPrefix;
    out := [0, 0, 0, 0];
    var hexStr := PadTo64(StripPrefix(hex));
    if |hexStr| > 64 { return false, out; }
    var limb := 3;
    while limb >= 0
      invariant -1 <= limb <= 3
      invariant forall l :: limb < l < 4 ==> HexDigits(Block(hexStr, l)) && out[l] == HexNumber(Block(hexStr, l))
    {
      BlockLength(hexStr, limb);
      var parsed, v := ParseLimb(Block(hexStr, limb));
      if !parsed {
        BadBlock(hexStr, limb);
        return false, out;
      }
      out := out[limb := v];
      limb := limb - 1;
    }
    BlocksAreDigits(hexStr);
    FourBlocks(hexStr, out);
    ok := true;
  }

  lemma BlockLength(s: string, l: nat)
    requires |s| == 64 && l < 4
    ensures |Block(s, l)| == 16
  {}

  lemma PaddedDigits(z: string, s: string)
    requires forall i :: 0 <= i < |z| ==> z[i] == '0'
    ensures HexDigits(z + s) <==> HexDigits(s)
  {
    if HexDigits(z + s) {
      forall i | 0 <= i < |s|
        ensures Nibble(s[i]) >= 0
      {
        assert (z + s)[|z| + i] == s[i];
      }
    }
  }

  lemma BadBlock(s: string, l: nat)
    requires |s| == 64 && l < 4 && !HexDigits(Block(s, l))
    ensures !HexDigits(s)
  {
    var i :| 0 <= i < 16 && Nibble(Block(s, l)[i]) < 0;
    assert s[(3 - l) * 16 + i] == Block(s, l)[i];
  }

  /** (P + 1) / 4, as the source writes it. */
  const SQRT_EXPONENT: U256 :=
    [0xFFFFFFFFBFFFFF0C, 0xFFFFFFFFFFFFFFFF, 0xFFFFFFFFFFFFFFFF, 0x3FFFFFFFFFFFFFFF]

  lemma SqrtExponent()
    ensures Val(SQRT_EXPONENT) == (P + 1) / 4
  {
    ValLimbs(SQRT_EXPONENT);
  }

  /** The right-hand side of the curve equation. */
  ghost function Rhs(x: int): int {
    R(x * x * x + 7)
  }

  ghost predicate IsSquare(c: int) {
    exists z :: R(z * z) == c
  }

  predicate WellFormed(hex: string) {
    |hex| == 66 && hex[0] == '0' && (hex[1] == '2' || hex[1] == '3')
  }

  lemma RhsSteps(x: int)
    ensures FAdd(FMul(FMul(x, x), x), 7) == Rhs(x)
  {
    hide FMul, FAdd, R;
    CubeSteps(x);
  }

  lemma CubeSteps(x: int)
    ensures FAdd(FMul(FMul(x, x), x), 7) == R(x * x * x + 7)
  {
    MulIs(x, x);
    MulIs(FMul(x, x), x);
    Twice(x * x);
    Twice(FMul(x, x) * x);
    hide R, FMul;
    Prod(FMul(x, x), x * x, x, x);
    Sum(FMul(FMul(x, x), x), x * x * x, 7, 7);
  }

  /** The power (P+1)/4 squares back exactly for squares. */
  lemma RootExists(c: int, y: int)
    requires Prime(P) && Reduced(c) && y == R(Pow(c, (P + 1) / 4))
    ensures FMul(y, y) == c <==> IsSquare(c)
  {
    hide Pow, R, FMul, Prime;
    MulIs(y, y);
    var r := Pow(c, (P + 1) / 4);
    Twice(r);
    SquareRoot(P, c);
    Prod(y, r, y, r);
    Small(c);
    Same(r * r, c);
    if FMul(y, y) == c {
      assert R(y * y) == c;
    }
    if IsSquare(c) {
      var z :| R(z * z) == c;
      Same(z * z, c);
    }
  }

  method DecompressPubkey(hex: string) returns (ok: bool, x: U256, y: U256)
    ensures ok ==> WellFormed(hex) && Parseable(hex[2..])
    ensures ok ==> Val(x) == HexNumber(StripPrefix(hex[2..]))
    ensures ok ==> R(Val(y) * Val(y)) == Rhs(Val(x)) && Val(y) % 2 == if hex[1] == '3' then 1 else 0
    ensures ok ==> 0 <= Val(y) <= P && (Val(y) == P ==> Rhs(Val(x)) == 0 && hex[1] == '3')
    ensures Prime(P) && WellFormed(hex) && Parseable(hex[2..]) ==>
              (ok <==> IsSquare(Rhs(HexNumber(StripPrefix(hex[2..])))))
  {
    hide HexNumber, Parseable, StripPrefix, FMul, FAdd, R, Prime, IsSquare, Rhs, Pow, Val;
    x, y := [0, 0, 0, 0], [0, 0, 0, 0];
    if |hex| != 66 { return false, x, y; }
    var needOdd;
    if hex[0] == '0' && hex[1] == '2' { needOdd := false; }
    else if hex[0] == '0' && hex[1] == '3' { needOdd := true; }
    else { return false, x, y; }
    var parsed;
    parsed, x := HexToUint256(hex[2..]);
    if !parsed { return false, x, y; }
    var x2 := ModMul(x, x);
    var x3 := ModMul(x2, x);
    SevenValue();
    var c := ModAdd(x3, [7, 0, 0, 0]);
    RhsSteps(Val(x));
    SqrtExponent();
    y := ModPow(c, SQRT_EXPONENT);
    var check := ModMul(y, y);
    if Prime(P) { RootExists(Val(c), Val(y)); }
    if check != c {
      if Val(check) == Val(c) { ValInjective(check, c); }
      return false, x, y;
    }
    ghost var root := y;
    Parity(y);
    var isOdd := y[0] % 2 == 1;
    RootFacts(Val(root), Rhs(Val(x)));
    if isOdd != needOdd {
      var borrow;
      y, borrow := Sub256(SECP256K1_P, y);
      ValP();
      Negated(Val(root), Val(y));
    }
    ok := true;
  }

  lemma SevenValue()
    ensures Val([7, 0, 0, 0]) == 7
  {
    ValLimbs([7, 0, 0, 0]);
  }

  lemma Parity(y: U256)
    ensures Val(y) % 2 == y[0] % 2
  {
    hide Val;
    ValLimbs(y);
    EvenRest(y[0], y[1] + B * (y[2] + B * y[3]));
  }

  lemma EvenRest(low: int, rest: int)
    ensures (low + B * rest) % 2 == low % 2
  {}

  lemma RootFacts(y: int, c: int)
    requires Reduced(y) && FMul(y, y) == c
    ensures R(y * y) == c && (y == 0 ==> c == 0)
  {
    hide R, FMul;
    MulIs(y, y);
    Small(0);
    assert y == 0 ==> y * y == 0;
  }

  lemma Negated(y: int, n: int)
    requires Reduced(y) && n == P - y
    ensures R(n * n) == R(y * y) && n % 2 != y % 2 && (n == P <==> y == 0)
  {
    hide R;
    Same(n, -y);
    CongIntro(n, -y, P, 1);
    Prod(n, -y, n, -y);
    NegSquare(y);
  }

  lemma NegSquare(y: int)
    ensures (-y) * (-y) == y * y
  {}
}
