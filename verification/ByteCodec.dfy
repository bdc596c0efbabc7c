/** 32-byte big-endian strings against four limbs, hexadecimal text against bytes. */
module ByteCodec {
  import opened Arith
  import opened Digits
  import opened BigEndian
  import opened Limbs
  import opened FieldPow
  import opened Hex

  type Bytes32 = s: seq<Byte> | |s| == 32 witness seq(32, i => 0)

  // ---- Bytes and limbs ----

  lemma PowBytes()
    ensures Pow(256, 8) == B && Pow(256, 16) == B * B && Pow(256, 24) == B * B * B && Pow(256, 32) == TWO256
  {
    assert Pow(256, 2) == 256 * Pow(256, 1) == 256 * (256 * Pow(256, 0));
    PowAdd(256, 2, 2);
    PowAdd(256, 4, 4);
    PowAdd(256, 8, 8);
    PowAdd(256, 16, 8);
    PowAdd(256, 16, 16);
  }

  lemma BytesBound(s: seq<Byte>)
    ensures AllDigits(s, 256) && 0 <= Big(s, 256) < Pow(256, |s|)
  {
    BigBound(s, 256);
  }

  /** The limbs of a big-endian string: eight bytes each, the last eight first. */
  ghost function LimbsOf(s: Bytes32): (a: U256) {
    PowBytes();
    BytesBound(s[0..8]);
    BytesBound(s[8..16]);
    BytesBound(s[16..24]);
    BytesBound(s[24..32]);
    [Big(s[24..32], 256), Big(s[16..24], 256), Big(s[8..16], 256), Big(s[0..8], 256)]
  }

  /** Splitting into limbs keeps the number. */
  lemma LimbsOfValue(s: Bytes32)
    ensures Val(LimbsOf(s)) == Big(s, 256)
  {
    hide Big, Pow;
    var a, b, c, d := s[0..8], s[8..16], s[16..24], s[24..32];
    assert s == ((a + b) + c) + d;
    BigConcat((a + b) + c, d, 256);
    BigConcat(a + b, c, 256);
    BigConcat(a, b, 256);
    PowBytes();
    ValLimbs(LimbsOf(s));
  }

  method Be32ToLimbsLe(bytes: Bytes32) returns (out: U256)
    ensures out == LimbsOf(bytes)
  {
    hide Big, Pow;
    out := [0, 0, 0, 0];
    PowBytes();
    for i := 0 to 4
      invariant forall k :: 0 <= k < i ==> out[k] == Big(bytes[(3 - k) * 8..(3 - k) * 8 + 8], 256)
    {
      var base := (3 - i) * 8;
      var v: U64 := 0;
      BigZeros(bytes[base..base + 0], 256);
      for j := 0 to 8
        invariant v == Big(bytes[base..base + j], 256)
      {
        assert bytes[base..base + j + 1] == bytes[base..base + j] + [bytes[base + j]];
        BigSnoc(bytes[base..base + j], bytes[base + j], 256);
        BytesBound(bytes[base..base + j + 1]);
        PowGrows(256, j + 1, 8);
        v := v * 256 % B + bytes[base + j];
      }
      out := out[i := v];
    }
  }

  /** The number in 256 bits: its shortest bytes behind zero bytes. */
  ghost function BytesOf(a: U256): (s: Bytes32)
    ensures Big(s, 256) == Val(a)
  {
    ValBound(a);
    PowBytes();
    ShortestLength(Val(a), 256, 32);
    ShortestValue(Val(a), 256);
    var short := Shortest(Val(a), 256);
    var pad: seq<Byte> := seq(32 - |short|, i => 0);
    BigPadded(pad, short, 256);
    pad + short
  }

  /** The two codecs undo each other, and both keep the number. */
  lemma CodecsInverse(s: Bytes32, a: U256)
    ensures BytesOf(LimbsOf(s)) == s && LimbsOf(BytesOf(a)) == a
    ensures Val(LimbsOf(s)) == Big(s, 256) && Big(BytesOf(a), 256) == Val(a)
  {
    hide Big, Shortest;
    LimbsOfValue(s);
    LimbsOfValue(BytesOf(a));
    BytesBound(s);
    BytesBound(BytesOf(LimbsOf(s)));
    BigInjective(s, BytesOf(LimbsOf(s)), 256);
    ValInjective(a, LimbsOf(BytesOf(a)));
  }

  /** The top k bytes of a limb, from the top k - 1. */
  lemma TopBytes(v: U64, k: nat)
    requires 0 < k <= 8
    ensures Pow(256, 8 - k) > 0 && Pow(256, 9 - k) > 0
    ensures v / Pow(256, 8 - k) == (v / Pow(256, 9 - k)) * 256 + v / Pow(256, 8 - k) % 256
  {
    PowPositive(256, 8 - k);
    PowPositive(256, 9 - k);
    DivDiv(v, Pow(256, 8 - k), 256);
    assert Pow(256, 9 - k) == 256 * Pow(256, 8 - k);
  }

  /** The number made of the top i limbs. */
  ghost function Top(a: U256, i: nat): int
    requires i <= 4
  {
    if i == 0 then 0 else a[4 - i] + B * Top(a, i - 1)
  }

  method LimbsLeToBe32(a: U256) returns (out: Bytes32)
    ensures out == BytesOf(a)
  {
    hide Big, Pow;
    var bytes: seq<Byte> := [];
    PowBytes();
    PowZeroth();
    BigZeros([], 256);
    ValLimbs(a);
    assert Top(a, 2) == a[2] + B * Top(a, 1);
    for i := 0 to 4
      invariant |bytes| == 8 * i
      invariant Big(bytes, 256) == Top(a, i)
    {
      var v := a[3 - i];
      ghost var before := bytes;
      ghost var low: seq<Byte> := [];
      for j := 0 to 8
        invariant bytes == before + low && |low| == j
        invariant Pow(256, 8 - j) > 0 && Big(low, 256) == v / Pow(256, 8 - j)
      {
        TopBytes(v, j + 1);
        BigSnoc(low, v / Pow(256, 7 - j) % 256, 256);
        low := low + [v / Pow(256, 7 - j) % 256];
        bytes := bytes + [v / Pow(256, 7 - j) % 256];
      }
      BigConcat(before, low, 256);
    }
    BytesBound(bytes);
    BytesBound(BytesOf(a));
    BigInjective(bytes, BytesOf(a), 256);
    out := bytes;
  }

  lemma PowZeroth()
    ensures Pow(256, 0) == 1
  {}

  // ---- Hexadecimal text ----

  const HEX := "0123456789abcdef"

  function Lower(c: char): char {
    if 'A' <= c <= 'F' then (c as int + 32) as char else c
  }

  /** Two lowercase digits per byte. */
  function HexText(bytes: seq<Byte>): (s: string)
    ensures |s| == 2 * |bytes|
    ensures forall i :: 0 <= i < |bytes| ==> s[2 * i] == HEX[bytes[i] / 16] && s[2 * i + 1] == HEX[bytes[i] % 16]
  {
    if bytes == [] then "" else
      var s := HexText(bytes[..|bytes| - 1]);
      var b := bytes[|bytes| - 1];
      s + [HEX[b / 16], HEX[b % 16]]
  }

  lemma HexNibble(n: int, c: char)
    ensures |HEX| == 16
    ensures 0 <= n < 16 ==> Nibble(HEX[n]) == n
    ensures 0 <= Nibble(c) ==> HEX[Nibble(c)] == Lower(c)
  {
    assert HEX[0] == '0' && HEX[1] == '1' && HEX[2] == '2' && HEX[3] == '3';
    assert HEX[4] == '4' && HEX[5] == '5' && HEX[6] == '6' && HEX[7] == '7';
    assert HEX[8] == '8' && HEX[9] == '9' && HEX[10] == 'a' && HEX[11] == 'b';
    assert HEX[12] == 'c' && HEX[13] == 'd' && HEX[14] == 'e' && HEX[15] == 'f';
  }

  /** The source writes into a caller's buffer of 2 * len + 1 characters, the last of them NUL. */
  method HexEncodeLower(bytes: seq<Byte>, out: array<char>)
    requires out.Length == 2 * |bytes| + 1
    modifies out
    ensures out[..] == HexText(bytes) + ['\0']
  {
    hide HEX;
    for i := 0 to |bytes|
      invariant out[..2 * i] == HexText(bytes[..i])
    {
      HexNibble(0, '0');
      out[i * 2] := HEX[bytes[i] / 16 % 16];
      out[i * 2 + 1] := HEX[bytes[i] % 16];
      assert bytes[..i + 1][..i] == bytes[..i];
      assert out[..2 * (i + 1)] == out[..2 * i] + [HEX[bytes[i] / 16], HEX[bytes[i] % 16]];
    }
    assert bytes[..|bytes|] == bytes;
    out[|bytes| * 2] := '\0';
  }

  predicate GoodPair(h: string, i: nat)
    requires 2 * i + 1 < |h|
  {
    Nibble(h[2 * i]) >= 0 && Nibble(h[2 * i + 1]) >= 0
  }

  function PairByte(h: string, i: nat): (b: Byte)
    requires 2 * i + 1 < |h| && GoodPair(h, i)
  {
    16 * Nibble(h[2 * i]) + Nibble(h[2 * i + 1])
  }

  /** True for hexadecimal text of exactly n bytes, with or without the prefix. */
  predicate Decodable(hex: string, n: nat) {
    |StripPrefix(hex)| == 2 * n && HexDigits(StripPrefix(hex))
  }

  /** The buffer is left alone when the length is wrong, and filled up to the first bad pair otherwise. */
  method HexDecode(hex: string, out: array<Byte>) returns (ok: bool)
    modifies out
    ensures ok == Decodable(hex, out.Length)
    ensures ok ==> out[..] == seq(out.Length, i requires 0 <= i < out.Length => PairByte(StripPrefix(hex), i))
    ensures |StripPrefix(hex)| != 2 * out.Length ==> out[..] == old(out[..])
    ensures |StripPrefix(hex)| == 2 * out.Length ==> forall i :: 0 <= i < out.Length ==>
        out[i] == if forall k :: 0 <= k <= i ==> GoodPair(StripPrefix(hex), k) then PairByte(StripPrefix(hex), i) else old(out[i])
  {
    hide Nibble;
    var h := StripPrefix(hex);
    if |h| % 2 != 0 { return false; }
    if |h| / 2 != out.Length { return false; }
    for i := 0 to out.Length
      invariant forall k :: 0 <= k < i ==> GoodPair(h, k) && out[k] == PairByte(h, k)
      invariant forall k :: i <= k < out.Length ==> out[k] == old(out[k])
    {
      var hi := Nibble(h[i * 2]);
      var lo := Nibble(h[i * 2 + 1]);
      if hi < 0 || lo < 0 {
        assert !GoodPair(h, i);
        return false;
      }
      out[i] := 16 * hi + lo;
    }
    forall k | 0 <= k < |h| ensures Nibble(h[k]) >= 0 {
      assert GoodPair(h, k / 2);
    }
    return true;
  }

  ghost function HexBytes(hex: string): (b: seq<Byte>)
    requires |StripPrefix(hex)| % 2 == 0 && HexDigits(StripPrefix(hex))
  {
    seq(|StripPrefix(hex)| / 2, i requires 0 <= i < |StripPrefix(hex)| / 2 => PairByte(StripPrefix(hex), i))
  }

  lemma TextNibble(bytes: seq<Byte>, i: nat)
    requires i < |bytes|
    ensures Nibble(HexText(bytes)[2 * i]) == bytes[i] / 16
    ensures Nibble(HexText(bytes)[2 * i + 1]) == bytes[i] % 16
  {
    hide HEX, Nibble;
    HexNibble(bytes[i] / 16, '0');
    HexNibble(bytes[i] % 16, '0');
  }

  lemma TextDecodes(bytes: seq<Byte>)
    ensures HexDigits(HexText(bytes)) && StripPrefix(HexText(bytes)) == HexText(bytes)
    ensures HexBytes(HexText(bytes)) == bytes
  {
    hide Nibble, HexText;
    var t := HexText(bytes);
    forall k | 0 <= k < |t| ensures Nibble(t[k]) >= 0 {
      TextNibble(bytes, k / 2);
    }
    NotPrefix(t);
    forall i | 0 <= i < |bytes| ensures HexBytes(t)[i] == bytes[i] {
      TextNibble(bytes, i);
    }
  }

  lemma NotPrefix(t: string)
    requires HexDigits(t)
    ensures StripPrefix(t) == t
  {
    if |t| >= 2 { assert Nibble(t[1]) >= 0; }
  }

  /** Text written from bytes, with or without a prefix in front, decodes to the bytes. */
  lemma HexRoundTrip(bytes: seq<Byte>, prefix: string)
    requires prefix == "" || prefix == "0x" || prefix == "0X"
    ensures Decodable(prefix + HexText(bytes), |bytes|)
    ensures HexBytes(prefix + HexText(bytes)) == bytes
  {
    hide Nibble, HexText;
    var t := HexText(bytes);
    TextDecodes(bytes);
    if prefix == "" {
      assert prefix + t == t;
    } else {
      assert (prefix + t)[2..] == t;
    }
    assert StripPrefix(prefix + t) == t;
  }

  /** Writing the decoded bytes gives the text back in lowercase, without the prefix. */
  lemma HexRoundTripText(hex: string)
    requires |StripPrefix(hex)| % 2 == 0 && HexDigits(StripPrefix(hex))
    ensures |HexText(HexBytes(hex))| == |StripPrefix(hex)|
    ensures forall k :: 0 <= k < |StripPrefix(hex)| ==> HexText(HexBytes(hex))[k] == Lower(StripPrefix(hex)[k])
  {
    hide HEX, HexText, Nibble, Lower, StripPrefix, HexBytes;
    var h, b := StripPrefix(hex), HexBytes(hex);
    BytesOfText(hex);
    forall k | 0 <= k < |h| ensures HexText(b)[k] == Lower(h[k]) {
      TextOfPair(b, h, k / 2);
      assert k == 2 * (k / 2) || k == 2 * (k / 2) + 1;
    }
  }

  lemma BytesOfText(hex: string)
    requires |StripPrefix(hex)| % 2 == 0 && HexDigits(StripPrefix(hex))
    ensures var h, b := StripPrefix(hex), HexBytes(hex);
            && |b| == |h| / 2
            && forall i :: 0 <= i < |b| ==> b[i] == 16 * Nibble(h[2 * i]) + Nibble(h[2 * i + 1])
  {
    hide Nibble, StripPrefix;
  }

  lemma TextOfPair(b: seq<Byte>, h: string, i: nat)
    requires i < |b| && 2 * i + 1 < |h| && 0 <= Nibble(h[2 * i]) && 0 <= Nibble(h[2 * i + 1])
    requires b[i] == 16 * Nibble(h[2 * i]) + Nibble(h[2 * i + 1])
    ensures HexText(b)[2 * i] == Lower(h[2 * i]) && HexText(b)[2 * i + 1] == Lower(h[2 * i + 1])
  {
    hide HEX, Lower, Nibble;
    HexNibble(0, h[2 * i]);
    HexNibble(0, h[2 * i + 1]);
    DivModUnique(b[i], 16, Nibble(h[2 * i]), Nibble(h[2 * i + 1]));
  }
}
