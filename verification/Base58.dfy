/** Base58: the fixed-buffer encoder and decoder, and the growing little-endian decoder. */
module Base58 {
  import opened Arith
  import opened Digits
  import opened BigEndian
  import opened Results

  /** n consecutive characters. */
  function Run(first: char, n: nat): string
    requires first as int + n <= 128
  {
    seq(n, i requires 0 <= i < n => (first as int + i) as char)
  }

  /** 1 to 9, then the letters without I, O and l. */
  const ALPHABET := Run('1', 9) + Run('A', 8) + Run('J', 5) + Run('P', 11) + Run('a', 11) + Run('m', 14)

  // ---- The alphabet ----

  /** The digit a character stands for, -1 outside the alphabet. */
  function DigitOf(c: char): int {
    if '1' <= c <= '9' then c as int - '1' as int
    else if 'A' <= c <= 'H' then 9 + (c as int - 'A' as int)
    else if 'J' <= c <= 'N' then 17 + (c as int - 'J' as int)
    else if 'P' <= c <= 'Z' then 22 + (c as int - 'P' as int)
    else if 'a' <= c <= 'k' then 33 + (c as int - 'a' as int)
    else if 'm' <= c <= 'z' then 44 + (c as int - 'm' as int)
    else -1
  }

  predicate InAlphabet(s: string) {
    forall i :: 0 <= i < |s| ==> 0 <= DigitOf(s[i])
  }

  function CharOf(d: int): char
    requires 0 <= d < 58
  {
    if d < 9 then '1' + d as char
    else if d < 17 then 'A' + (d - 9) as char
    else if d < 22 then 'J' + (d - 17) as char
    else if d < 33 then 'P' + (d - 22) as char
    else if d < 44 then 'a' + (d - 33) as char
    else 'm' + (d - 44) as char
  }

  lemma AlphabetAt(d: nat)
    requires d < 58
    ensures |ALPHABET| == 58 && ALPHABET[d] == CharOf(d)
  {
  }

  lemma CharDigits(d: nat, c: char)
    ensures d < 58 ==> DigitOf(CharOf(d)) == d
    ensures 0 <= DigitOf(c) ==> DigitOf(c) < 58 && CharOf(DigitOf(c)) == c
  {}

  /** The 58 alphabet characters carry the digits 0 to 57, and no other character is a digit. */
  lemma AlphabetDigits()
    ensures |ALPHABET| == 58
    ensures forall d :: 0 <= d < 58 ==> DigitOf(ALPHABET[d]) == d
    ensures forall c :: 0 <= DigitOf(c) ==> DigitOf(c) < 58 && ALPHABET[DigitOf(c)] == c
  {
    hide ALPHABET, DigitOf, CharOf;
    AlphabetAt(0);
    forall d | 0 <= d < 58 ensures DigitOf(ALPHABET[d]) == d {
      AlphabetAt(d);
      CharDigits(d, 'a');
    }
    forall c | 0 <= DigitOf(c) ensures DigitOf(c) < 58 && ALPHABET[DigitOf(c)] == c {
      CharDigits(0, c);
      AlphabetAt(DigitOf(c));
    }
  }

  /** The alphabet is the digits and letters without 0, I, O and l, and digits grow with the character code. */
  lemma AlphabetOrder(c: char, d: char)
    ensures 0 <= DigitOf(c) <==>
      (48 <= c as int < 58 || 65 <= c as int < 91 || 97 <= c as int < 123) && c != '0' && c != 'I' && c != 'O' && c != 'l'
    ensures 0 <= DigitOf(c) && 0 <= DigitOf(d) ==> (c < d <==> DigitOf(c) < DigitOf(d))
  {}

  // ---- What the two directions compute ----

  function DigitsOf(s: string): (d: seq<int>)
    requires InAlphabet(s)
    ensures |d| == |s| && AllDigits(d, 58) && Leading(d, 0) == Leading(s, '1')
    ensures forall i :: 0 <= i < |s| ==> d[i] == DigitOf(s[i])
  {
    var d := seq(|s|, i requires 0 <= i < |s| => DigitOf(s[i]));
    LeadingUnique(d, 0, Leading(s, '1'));
    d
  }

  function Spell(d: seq<int>): (s: string)
    requires AllDigits(d, 58)
    ensures |s| == |d| && InAlphabet(s) && DigitsOf(s) == d
  {
    AlphabetDigits();
    seq(|d|, i requires 0 <= i < |d| => ALPHABET[d[i]])
  }

  lemma SpellDigits(s: string)
    requires InAlphabet(s)
    ensures Spell(DigitsOf(s)) == s
  {
    hide DigitOf, ALPHABET;
    AlphabetDigits();
  }

  /** The bytes a string stands for: its number base 256, one zero byte per leading '1'. */
  ghost function Decoded(s: string): (b: seq<Byte>)
    requires InAlphabet(s)
  {
    Recode(DigitsOf(s), 58, 256)
  }

  /** The string for some bytes: their number base 58, one '1' per leading zero byte. */
  ghost function Encoded(b: seq<Byte>): (s: string)
    ensures InAlphabet(s)
  {
    Spell(Recode(b, 256, 58))
  }

  lemma DecodeEncode(b: seq<Byte>)
    ensures Decoded(Encoded(b)) == b
  {
    hide DigitOf, Recode;
    RecodeInverse(b, 256, 58);
  }

  lemma EncodeDecode(s: string)
    requires InAlphabet(s)
    ensures Encoded(Decoded(s)) == s
  {
    hide DigitOf, Recode;
    RecodeInverse(DigitsOf(s), 58, 256);
    SpellDigits(s);
  }

  // ---- The buffers are long enough at every length ----

  lemma Powers58()
    ensures Pow(58, 71) <= Pow(256, 52)
    ensures Pow(256, 8) <= Pow(58, 11)
  {
    hide Pow;
    PowDoubles(58);
    PowDoubles(256);
    PowAdd(58, 64, 7);
    PowAdd(58, 4, 3);
    PowAdd(58, 8, 3);
    PowAdd(58, 2, 1);
    PowAdd(256, 32, 20);
    PowAdd(256, 16, 4);
  }

  /** Repeated squaring up to 2^6. */
  lemma PowDoubles(b: int)
    ensures Pow(b, 1) == b && Pow(b, 2) == b * b && Pow(b, 4) == Pow(b, 2) * Pow(b, 2)
    ensures Pow(b, 8) == Pow(b, 4) * Pow(b, 4) && Pow(b, 16) == Pow(b, 8) * Pow(b, 8)
    ensures Pow(b, 32) == Pow(b, 16) * Pow(b, 16) && Pow(b, 64) == Pow(b, 32) * Pow(b, 32)
  {
    assert Pow(b, 1) == b * Pow(b, 0) == b;
    PowAdd(b, 1, 1);
    PowAdd(b, 2, 2);
    PowAdd(b, 4, 4);
    PowAdd(b, 8, 8);
    PowAdd(b, 16, 16);
    PowAdd(b, 32, 32);
  }

  lemma PowSwap(b: int, e: nat, f: nat)
    ensures Pow(Pow(b, e), f) == Pow(Pow(b, f), e) == Pow(b, e * f)
  {
    hide Pow;
    PowMul(b, e, f);
    PowMul(b, f, e);
    Commute(e, f);
  }

  lemma Commute(e: nat, f: nat)
    ensures e * f == f * e
  {}

  lemma RaisedLow(b: int, k: nat, c: int, q: nat, n: nat)
    requires 1 < b && 1 < c
    requires Pow(b, k) <= Pow(c, q)
    ensures Pow(Pow(b, n), k) <= Pow(c, q * n)
  {
    hide Pow;
    PowSwap(b, n, k);
    PowSwap(c, q, n);
    PowPositive(b, k);
    PowWeak(Pow(b, k), Pow(c, q), n);
  }

  lemma RaisedHigh(c: int, m: nat, k: nat, e: nat)
    requires 1 < c && e <= m * k
    ensures Pow(c, e) <= Pow(Pow(c, m), k)
  {
    hide Pow;
    PowSwap(c, m, k);
    PowGrows(c, e, m * k);
  }

  /** If k digits base b fit q digits base c, and q * n <= m * k, then n digits base b fit m digits base c. */
  lemma ScaledFit(b: int, k: nat, c: int, q: nat, n: nat, m: nat)
    requires 1 < b && 1 < c && 0 < k
    requires Pow(b, k) <= Pow(c, q)
    requires q * n <= m * k
    ensures Pow(b, n) <= Pow(c, m)
  {
    hide Pow;
    RaisedLow(b, k, c, q, n);
    RaisedHigh(c, m, k, q * n);
    PowPositive(b, n);
    PowPositive(c, m);
    if Pow(c, m) < Pow(b, n) { PowStrict(Pow(c, m), Pow(b, n), k); }
  }

  lemma PowWeak(a: int, b: int, e: nat)
    requires 0 <= a <= b
    ensures Pow(a, e) <= Pow(b, e)
  {
    if a < b && e > 0 { PowStrict(a, b, e); }
  }

  function DecodeSize(n: nat): nat { n * 733 / 1000 + 1 }
  function EncodeSize(n: nat): nat { n * 138 / 100 + 1 }

  /** A number of n base-58 digits fits DecodeSize(n) bytes, and one of n bytes fits EncodeSize(n) base-58 digits. */
  lemma BuffersHold(n: nat)
    ensures Pow(58, n) <= Pow(256, DecodeSize(n))
    ensures Pow(256, n) <= Pow(58, EncodeSize(n))
  {
    hide Pow;
    Powers58();
    ScaledFit(58, 71, 256, 52, n, DecodeSize(n));
    ScaledFit(256, 8, 58, 11, n, EncodeSize(n));
  }

  // ---- The loops ----

  /** One step of the inner loop, in numbers: digit d at weight w becomes x, leaving a new carry. */
  lemma CarryMoves(m: int, d: int, x: int, b: int, carry: int, next: int, w: int, low: int, lowOld: int, extra: int)
    requires low + carry * w == m * lowOld + extra
    requires carry + m * d == x + b * next
    ensures (x * w + low) + next * (b * w) == m * (d * w + lowOld) + extra
  {
    MulAssoc(next, b, w);
    MulAssoc(m, d, w);
    assert next * b == b * next;
    assert (carry + m * d) * w == carry * w + (m * d) * w;
    assert (x + b * next) * w == x * w + (b * next) * w;
    assert m * (d * w + lowOld) == m * (d * w) + m * lowOld;
  }

  lemma CarrySmall(m: int, b: int, carry: int, d: int)
    requires 0 <= carry < m && 0 <= d < b
    ensures 0 <= (carry + m * d) / b < m
    ensures carry + m * d == (carry + m * d) % b + b * ((carry + m * d) / b)
    ensures 0 <= carry + m * d < m * b
  {
    MulMono(d, b - 1, m);
    MulMono(0, d, m);
    assert m * (b - 1) == m * b - m;
    DivBelow(carry + m * d, b, m);
  }

  /** Multiply the big-endian base-b number in the buffer by m and add, from the rear; the last carry is what did not fit. */
  method MultiplyAdd(a: array<Byte>, m: int, b: int, add: int) returns (carry: int)
    requires 1 < b <= 256 && 1 < m <= 256 && 0 <= add < m && AllDigits(a[..], b)
    modifies a
    ensures AllDigits(a[..], b)
    ensures 0 <= carry < m
    ensures Big(a[..], b) + carry * Pow(b, a.Length) == m * Big(old(a[..]), b) + add
  {
    hide AllDigits, Big, Pow;
    carry := add;
    var i := a.Length;
    ghost var was := a[..];
    Emptied(a[i..], b);
    while i > 0
      invariant 0 <= i <= a.Length && 0 <= carry < m
      invariant a[..i] == was[..i]
      invariant AllDigits(was, b) && AllDigits(a[i..], b)
      invariant Big(a[i..], b) + carry * Pow(b, a.Length - i) == m * Big(was[i..], b) + add
    {
      ghost var w, low := Pow(b, a.Length - i), a[i..];
      ghost var d, c := was[i - 1], carry;
      assert a[..i][i - 1] == was[..i][i - 1];
      DigitAt(was, i - 1, b);
      CarrySmall(m, b, carry, d);
      carry := carry + m * a[i - 1];
      a[i - 1] := carry % b;
      carry := carry / b;
      i := i - 1;
      assert a[i..] == [a[i]] + low;
      assert was[i..] == [d] + was[i + 1..];
      CarryMoves(m, d, a[i], b, c, carry, w, Big(low, b), Big(was[i + 1..], b), add);
      Fronted(a[i], low, b);
      Fronted(d, was[i + 1..], b);
    }
    assert a[..] == a[0..];
    assert was == was[0..];
  }

  lemma Emptied(s: seq<int>, b: int)
    requires s == []
    ensures AllDigits(s, b) && Big(s, b) == 0 && Pow(b, 0) == 1
  {}

  lemma DigitAt(s: seq<int>, i: nat, b: int)
    requires i < |s| && AllDigits(s, b)
    ensures 0 <= s[i] < b
  {}

  lemma Fronted(x: int, s: seq<int>, b: int)
    ensures Big([x] + s, b) == x * Pow(b, |s|) + Big(s, b)
    ensures Pow(b, |s| + 1) == b * Pow(b, |s|)
    ensures 0 <= x < b && AllDigits(s, b) ==> AllDigits([x] + s, b)
  {
    assert ([x] + s)[1..] == s;
  }

  method CountLeading<T(==)>(s: seq<T>, x: T) returns (n: nat)
    ensures n == Leading(s, x)
  {
    n := 0;
    while n < |s| && s[n] == x
      invariant n <= |s|
      invariant forall i :: 0 <= i < n ==> s[i] == x
    {
      n := n + 1;
    }
    LeadingUnique(s, x, n);
  }

  method ReverseLookup() returns (lookup: array<int>)
    ensures fresh(lookup) && lookup.Length == 128
    ensures forall c: char :: c as int < 128 ==> lookup[c as int] == DigitOf(c)
    ensures forall c :: 0 <= DigitOf(c) ==> c as int < 128
  {
    SevenBit();
    hide DigitOf, ALPHABET;
    AlphabetDigits();
    lookup := new int[128](i => -1);
    for i := 0 to 58
      invariant forall c: char :: c as int < 128 ==> lookup[c as int] == if DigitOf(c) < i then DigitOf(c) else -1
    {
      lookup[ALPHABET[i] as int] := i;
    }
  }

  lemma SevenBit()
    ensures forall c :: DigitOf(c) >= -1 && (0 <= DigitOf(c) ==> c as int < 128)
  {}

  lemma FirstBad(s: string, j: nat)
    requires j < |s|
    ensures InAlphabet(s) ==> 0 <= DigitOf(s[j]) < 58
    ensures InAlphabet(s[..j]) && 0 <= DigitOf(s[j]) ==> InAlphabet(s[..j + 1]) && DigitOf(s[j]) < 58
  {}

  /** The number read so far fits the buffer, so the carry out of its front is zero. */
  lemma NothingDropped(front: seq<int>, x: int, from: int, to: int, n: nat, size: nat, after: int, dropped: int)
    requires 1 < from && 1 < to && AllDigits(front + [x], from) && |front| < n
    requires Pow(from, n) <= Pow(to, size)
    requires 0 <= after && 0 <= dropped
    requires after + dropped * Pow(to, size) == from * Big(front, from) + x
    ensures after == Big(front + [x], from)
  {
    hide Pow, Big, AllDigits;
    BigSnoc(front, x, from);
    BigBound(front + [x], from);
    PowGrows(from, |front| + 1, n);
    PowPositive(to, size);
    NoOverflow(dropped, Pow(to, size), after);
  }

  lemma NoOverflow(dropped: int, w: int, after: int)
    requires 0 < w && 0 <= dropped && 0 <= after && after + dropped * w < w
    ensures dropped == 0
  {
    if dropped > 0 { MulMono(1, dropped, w); }
  }

  lemma RecodeIs(s: seq<int>, from: int, to: int, z: seq<int>, t: seq<int>)
    requires 1 < from && 1 < to && AllDigits(s, from) && AllDigits(t, to)
    requires |z| == Leading(s, 0) && AllZero(z)
    requires Big(t, to) == Big(s, from)
    ensures z + t[Leading(t, 0)..] == Recode(s, from, to)
  {
    hide Big, Leading;
    SkipZeros(t, to);
  }

  /** Base58::decode: characters outside the alphabet are refused, everything else is decoded exactly. */
  method Decode(encoded: string) returns (r: Result<seq<Byte>>)
    ensures r.Ok? <==> InAlphabet(encoded)
    ensures InAlphabet(encoded) ==> r.value == Decoded(encoded)
  {
    hide InAlphabet, DigitOf, AllDigits, Big, Pow, Recode, AllZero, DigitsOf, Leading;
    var lookup := ReverseLookup();
    var leading := CountLeading(encoded, '1');
    var size := DecodeSize(|encoded|);
    var result := new Byte[size](i => 0);
    EmptyPrefix(encoded, result[..]);
    var j := 0;
    while j < |encoded|
      invariant 0 <= j <= |encoded| && result.Length == size
      invariant InAlphabet(encoded[..j]) && AllDigits(result[..], 256)
      invariant Big(result[..], 256) == Big(DigitsOf(encoded[..j]), 58)
      modifies result
    {
      var c := encoded[j];
      FirstBad(encoded, j);
      if c as int >= 128 || lookup[c as int] < 0 {
        return Err("Invalid Base58 character");
      }
      var dropped := MultiplyAdd(result, 58, 256, lookup[c as int]);
      BigBound(result[..], 256);
      BuffersHold(|encoded|);
      DigitsSnoc(encoded, j);
      NothingDropped(DigitsOf(encoded[..j]), DigitOf(c), 58, 256, |encoded|, size, Big(result[..], 256), dropped);
      j := j + 1;
    }
    assert encoded[..j] == encoded;
    var skip := CountLeading(result[..], 0);
    var zeros: seq<Byte> := seq(leading, i => 0);
    LeadingZeros(encoded, zeros);
    RecodeIs(DigitsOf(encoded), 58, 256, zeros, result[..]);
    return Ok(zeros + result[skip..]);
  }

  lemma EmptyPrefix(s: string, buffer: seq<Byte>)
    requires AllZero(buffer)
    ensures InAlphabet(s[..0]) && AllDigits(buffer, 256) && Big(buffer, 256) == Big(DigitsOf(s[..0]), 58)
  {
    BigZeros(buffer, 256);
  }

  lemma LeadingZeros(s: string, zeros: seq<int>)
    requires InAlphabet(s) && (forall i :: 0 <= i < |zeros| ==> zeros[i] == 0)
    ensures AllZero(zeros) && Leading(DigitsOf(s), 0) == Leading(s, '1') && AllDigits(DigitsOf(s), 58)
  {}

  lemma DigitsSnoc(s: string, j: nat)
    requires j < |s| && InAlphabet(s[..j]) && InAlphabet(s[..j + 1])
    ensures |DigitsOf(s[..j])| == j && AllDigits(DigitsOf(s[..j]) + [DigitOf(s[j])], 58)
    ensures DigitsOf(s[..j + 1]) == DigitsOf(s[..j]) + [DigitOf(s[j])]
  {
    assert s[..j + 1][j] == s[j];
    hide DigitOf;
  }

  /** Base58::encode: every byte string is encoded exactly. */
  method Encode(data: seq<Byte>) returns (r: string)
    ensures r == Encoded(data)
  {
    hide AllDigits, Big, Pow, Recode, AllZero, Leading, ALPHABET, DigitOf, InAlphabet;
    var leading := CountLeading(data, 0);
    var size := EncodeSize(|data|);
    var digits := new Byte[size](i => 0);
    BytesDigits(data, 0, digits[..]);
    var j := 0;
    while j < |data|
      invariant 0 <= j <= |data| && digits.Length == size
      invariant AllDigits(digits[..], 58) && Big(digits[..], 58) == Big(data[..j], 256)
      modifies digits
    {
      var dropped := MultiplyAdd(digits, 256, 58, data[j]);
      BigBound(digits[..], 58);
      BuffersHold(|data|);
      BytesDigits(data, j + 1, []);
      assert data[..j + 1] == data[..j] + [data[j]];
      NothingDropped(data[..j], data[j], 256, 58, |data|, size, Big(digits[..], 58), dropped);
      j := j + 1;
    }
    assert data[..j] == data;
    var skip := CountLeading(digits[..], 0);
    ghost var zeros: seq<int> := seq(leading, i => 0);
    BytesDigits(data, j, zeros);
    RecodeIs(data, 256, 58, zeros, digits[..]);
    r := SpellAll(leading, digits, skip, zeros);
  }

  /** A '1' per leading zero byte, then the characters of the buffer's digits. */
  method SpellAll(leading: nat, digits: array<Byte>, skip: nat, ghost zeros: seq<int>) returns (r: string)
    requires skip <= digits.Length && AllDigits(digits[..], 58)
    requires |zeros| == leading && AllZero(zeros)
    ensures AllDigits(zeros + digits[skip..], 58) && r == Spell(zeros + digits[skip..])
  {
    hide AllDigits, AllZero, ALPHABET, InAlphabet, DigitOf;
    AlphabetAt(0);
    r := seq(leading, i => '1');
    var it := skip;
    SpellOnes(zeros, r);
    assert zeros + digits[skip..it] == zeros;
    DigitsHold(digits[..], 58);
    while it < digits.Length
      invariant skip <= it <= digits.Length
      invariant AllDigits(zeros + digits[skip..it], 58) && r == Spell(zeros + digits[skip..it])
    {
      var x := digits[..][it];
      SpellSnoc(zeros + digits[skip..it], x);
      assert zeros + digits[skip..it + 1] == zeros + digits[skip..it] + [x];
      r := r + [ALPHABET[x]];
      it := it + 1;
    }
    assert digits[skip..it] == digits[skip..];
  }

  lemma BytesDigits(data: seq<Byte>, j: nat, buffer: seq<int>)
    requires j <= |data| && forall i :: 0 <= i < |buffer| ==> buffer[i] == 0
    ensures AllDigits(data[..j], 256) && AllDigits(data, 256)
    ensures AllZero(buffer) && AllDigits(buffer, 58) && Big(buffer, 58) == 0 == Big(data[..0], 256)
  {
    BigZeros(buffer, 58);
  }

  lemma DigitsHold(s: seq<int>, b: int)
    requires AllDigits(s, b)
    ensures forall i :: 0 <= i < |s| ==> 0 <= s[i] < b
  {}

  lemma SpellOnes(zeros: seq<int>, s: string)
    requires AllZero(zeros) && |s| == |zeros| && forall i :: 0 <= i < |s| ==> s[i] == '1'
    ensures AllDigits(zeros, 58) && s == Spell(zeros)
  {
    AlphabetAt(0);
  }

  lemma SpellSnoc(d: seq<int>, x: int)
    requires AllDigits(d, 58) && 0 <= x < 58
    ensures |ALPHABET| == 58 && AllDigits(d + [x], 58) && Spell(d + [x]) == Spell(d) + [ALPHABET[x]]
  {
    AlphabetAt(0);
    hide ALPHABET;
  }
}
