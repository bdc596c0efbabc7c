/** Folding a compression function over 64-byte blocks, and the length padding of FIPS 180-4 and RFC 1320. */
module Blocks {
  import opened Arith
  import opened BigEndian
  import opened Limbs
  import opened Wire

  /** The chaining value after the whole blocks of m. */
  function Fold<C>(compress: (C, seq<Byte>) -> C, h: C, m: seq<Byte>): C
    decreases |m|
  {
    if |m| < 64 then h else Fold(compress, compress(h, m[..64]), m[64..])
  }

  /** Whole blocks first, the rest later. */
  lemma {:induction false} FoldConcat<C>(compress: (C, seq<Byte>) -> C, h: C, a: seq<Byte>, b: seq<Byte>)
    requires |a| % 64 == 0
    ensures Fold(compress, h, a + b) == Fold(compress, Fold(compress, h, a), b)
    decreases |a|
  {
    if a == [] {
      assert a + b == b;
    } else {
      assert (a + b)[..64] == a[..64] && (a + b)[64..] == a[64..] + b;
      FoldConcat(compress, compress(h, a[..64]), a[64..], b);
    }
  }

  /** A completed block is compressed into the value of the blocks before it. */
  lemma FoldBlock<C>(compress: (C, seq<Byte>) -> C, h: C, m: seq<Byte>, block: seq<Byte>)
    requires |block| == 64 && |m| % 64 == 0
    ensures Fold(compress, h, m + block) == compress(Fold(compress, h, m), block)
  {
    FoldConcat(compress, h, m, block);
    assert block[..64] == block && block[64..] == [];
  }

  /** The whole blocks of a message, and the bytes after them. */
  function Whole(m: seq<Byte>): (w: seq<Byte>)
    ensures |w| % 64 == 0
  {
    m[..|m| - |m| % 64]
  }

  function Rest(m: seq<Byte>): (r: seq<Byte>)
    ensures |r| == |m| % 64 && m == Whole(m) + r
  {
    m[|m| - |m| % 64..]
  }

  /** Bytes behind the whole blocks do not matter yet. */
  lemma FoldWhole<C>(compress: (C, seq<Byte>) -> C, h: C, m: seq<Byte>)
    ensures Fold(compress, h, m) == Fold(compress, h, Whole(m))
  {
    FoldConcat(compress, h, Whole(m), Rest(m));
  }

  /** Appending bytes that do not complete a block. */
  lemma AppendPartial(m: seq<Byte>, d: seq<Byte>)
    requires |Rest(m)| + |d| < 64
    ensures Whole(m + d) == Whole(m) && Rest(m + d) == Rest(m) + d
  {}

  /** Completing the block in the buffer. */
  lemma CompleteBlock<C>(compress: (C, seq<Byte>) -> C, h: C, m: seq<Byte>, d: seq<Byte>)
    requires |Rest(m)| + |d| == 64
    ensures Fold(compress, h, m + d) == compress(Fold(compress, h, m), Rest(m) + d)
    ensures (|m| + |d|) % 64 == 0
  {
    FoldWhole(compress, h, m);
    BlockLength(|m|, |d|);
    hide Fold, Whole, Rest;
    assert m == Whole(m) + Rest(m);
    Reassociate(Whole(m), Rest(m), d);
    FoldBlock(compress, h, Whole(m), Rest(m) + d);
  }

  lemma BlockLength(m: nat, d: nat)
    requires m % 64 + d == 64
    ensures (m + d) % 64 == 0
  {}

  lemma Reassociate(a: seq<Byte>, b: seq<Byte>, c: seq<Byte>)
    ensures (a + b) + c == a + (b + c)
  {}

  // ---- Padding ----

  /** How many zero bytes follow the 0x80 byte: the fewest that leave room for the length. */
  function Zeros(n: nat): (k: nat)
    ensures k < 64 && (n + 1 + k) % 64 == 56
  {
    (119 - n % 64) % 64
  }

  function ZeroBytes(k: nat): (z: seq<Byte>)
    ensures |z| == k && forall i :: 0 <= i < k ==> z[i] == 0
  {
    seq(k, i => 0)
  }

  function Be(n: nat, k: nat): (s: seq<Byte>)
    ensures |s| == k
  {
    if k == 0 then [] else Be(n / 256, k - 1) + [n % 256]
  }

  /** The bit length of a message of n bytes, modulo 2^64. */
  function BitLength(n: nat): U64 {
    n * 8 % 0x1_0000_0000_0000_0000
  }

  /** FIPS 180-4 section 5.1.1: the length big-endian. */
  function ShaPadded(m: seq<Byte>): (p: seq<Byte>)
    ensures |p| == |m| + 1 + Zeros(|m|) + 8
  {
    m + [0x80] + ZeroBytes(Zeros(|m|)) + Be(BitLength(|m|), 8)
  }

  /** RFC 1320 sections 3.1 and 3.2: the length little-endian. */
  function Md4Padded(m: seq<Byte>): (p: seq<Byte>)
    ensures |p| == |m| + 1 + Zeros(|m|) + 8
  {
    m + [0x80] + ZeroBytes(Zeros(|m|)) + Le(BitLength(|m|), 8)
  }

  lemma {:induction false} BeRead(n: nat, k: nat)
    requires n < Pow(256, k)
    ensures Big(Be(n, k), 256) == n
  {
    if k > 0 {
      DivBelow(n, 256, Pow(256, k - 1));
      BeRead(n / 256, k - 1);
      BigSnoc(Be(n / 256, k - 1), n % 256, 256);
    }
  }

  lemma SameBitLength(m: nat, n: nat)
    requires m < 0x2000_0000_0000_0000 && n < 0x2000_0000_0000_0000
    requires BitLength(m) == BitLength(n)
    ensures m == n
  {}

  lemma EndOf(a: seq<Byte>, z: seq<Byte>)
    ensures (a + z)[|a| + |z| - |z|..] == z
  {}

  /** Below 2^61 bytes no two messages share a padded form. */
  lemma PaddingInjective(m: seq<Byte>, n: seq<Byte>)
    requires |m| < 0x2000_0000_0000_0000 && |n| < 0x2000_0000_0000_0000
    ensures ShaPadded(m) == ShaPadded(n) ==> m == n
    ensures Md4Padded(m) == Md4Padded(n) ==> m == n
  {
    hide Be, Le, BitLength, Zeros, LeNumber, Pow, Big;
    LePowers();
    BeRead(BitLength(|m|), 8);
    BeRead(BitLength(|n|), 8);
    LeRead(BitLength(|m|), 8);
    LeRead(BitLength(|n|), 8);
    if ShaPadded(m) == ShaPadded(n) {
      EndOf(m + [0x80] + ZeroBytes(Zeros(|m|)), Be(BitLength(|m|), 8));
      EndOf(n + [0x80] + ZeroBytes(Zeros(|n|)), Be(BitLength(|n|), 8));
      SameBitLength(|m|, |n|);
      assert ShaPadded(m)[..|m|] == m && ShaPadded(n)[..|n|] == n;
    }
    if Md4Padded(m) == Md4Padded(n) {
      EndOf(m + [0x80] + ZeroBytes(Zeros(|m|)), Le(BitLength(|m|), 8));
      EndOf(n + [0x80] + ZeroBytes(Zeros(|n|)), Le(BitLength(|n|), 8));
      SameBitLength(|m|, |n|);
      assert Md4Padded(m)[..|m|] == m && Md4Padded(n)[..|n|] == n;
    }
  }

  /** A message, 0x80, zeros up to the least multiple of 64 that leaves room for eight bytes more, and those. */
  ghost predicate Padded(m: seq<Byte>, p: seq<Byte>) {
    && |p| % 64 == 0 && |m| + 9 <= |p| < |m| + 9 + 64
    && p[..|m|] == m && p[|m|] == 0x80
    && forall i :: |m| < i < |p| - 8 ==> p[i] == 0
  }

  lemma PaddedLength(n: nat, k: nat)
    requires (n + 1 + k) % 64 == 56
    ensures (n + 1 + k + 8) % 64 == 0
  {}

  lemma PaddedWith(m: seq<Byte>, end: seq<Byte>)
    requires |end| == 8
    ensures var p := m + [0x80] + ZeroBytes(Zeros(|m|)) + end; Padded(m, p) && p[|p| - 8..] == end
  {
    PaddedLength(|m|, Zeros(|m|));
    hide Zeros;
  }

  /** FIPS 180-4 section 5.1.1: the last eight bytes are the length in bits, most significant first; above 2^61
      bytes modulo 2^64. */
  lemma ShaPadding(m: seq<Byte>)
    ensures var p := ShaPadded(m);
      && Padded(m, p) && Big(p[|p| - 8..], 256) == 8 * |m| % 0x1_0000_0000_0000_0000
      && (|m| < 0x2000_0000_0000_0000 ==> Big(p[|p| - 8..], 256) == 8 * |m|)
  {
    hide Be, Padded, Zeros, Pow, Big;
    LePowers();
    BeRead(BitLength(|m|), 8);
    PaddedWith(m, Be(BitLength(|m|), 8));
  }

  /** RFC 1320 sections 3.1 and 3.2: the same with the least significant byte first. */
  lemma Md4Padding(m: seq<Byte>)
    ensures var p := Md4Padded(m);
      && Padded(m, p) && LeNumber(p[|p| - 8..]) == 8 * |m| % 0x1_0000_0000_0000_0000
      && (|m| < 0x2000_0000_0000_0000 ==> LeNumber(p[|p| - 8..]) == 8 * |m|)
  {
    hide Le, Padded, Zeros, Pow, LeNumber;
    LePowers();
    LeRead(BitLength(|m|), 8);
    PaddedWith(m, Le(BitLength(|m|), 8));
  }

  /** The eight bytes of a 64-bit number, by shifts. */
  lemma BeShifts(n: U64)
    ensures Be(n, 8) == [n / 0x100_0000_0000_0000 % 256, n / 0x1_0000_0000_0000 % 256, n / 0x100_0000_0000 % 256,
                         n / 0x1_0000_0000 % 256, n / 0x100_0000 % 256, n / 0x1_0000 % 256, n / 0x100 % 256, n % 256]
  {
    assert Be(n / 0x100_0000_0000_0000, 1) == Be(n / 0x100_0000_0000_0000 / 256, 0) + [n / 0x100_0000_0000_0000 % 256];
    assert Be(n / 0x1_0000_0000_0000, 2) == Be(n / 0x100_0000_0000_0000, 1) + [n / 0x1_0000_0000_0000 % 256];
    assert Be(n / 0x100_0000_0000, 3) == Be(n / 0x1_0000_0000_0000, 2) + [n / 0x100_0000_0000 % 256];
    assert Be(n / 0x1_0000_0000, 4) == Be(n / 0x100_0000_0000, 3) + [n / 0x1_0000_0000 % 256];
    assert Be(n / 0x100_0000, 5) == Be(n / 0x1_0000_0000, 4) + [n / 0x100_0000 % 256];
    assert Be(n / 0x1_0000, 6) == Be(n / 0x100_0000, 5) + [n / 0x1_0000 % 256];
    assert Be(n / 0x100, 7) == Be(n / 0x1_0000, 6) + [n / 0x100 % 256];
  }

  // ---- Output ----

  function BeWords(words: seq<U32>): (s: seq<Byte>)
    ensures |s| == 4 * |words|
  {
    if words == [] then [] else BeWords(words[..|words| - 1]) + Be(words[|words| - 1], 4)
  }

  function LeWords(words: seq<U32>): (s: seq<Byte>)
    ensures |s| == 4 * |words|
  {
    if words == [] then [] else LeWords(words[..|words| - 1]) + Le(words[|words| - 1], 4)
  }

  /** Word j is read back from bytes 4j to 4j + 3. */
  lemma {:induction false} WordsRead(words: seq<U32>, j: nat)
    requires j < |words|
    ensures Big(BeWords(words)[4 * j..4 * j + 4], 256) == words[j]
    ensures LeNumber(LeWords(words)[4 * j..4 * j + 4]) == words[j]
    decreases |words|
  {
    hide Be, Le, Big, LeNumber, Pow;
    var k := |words| - 1;
    if j == k {
      LePowers();
      BeRead(words[k], 4);
      LeRead(words[k], 4);
      assert BeWords(words)[4 * k..4 * k + 4] == Be(words[k], 4);
      assert LeWords(words)[4 * k..4 * k + 4] == Le(words[k], 4);
    } else {
      WordsRead(words[..k], j);
      assert BeWords(words)[4 * j..4 * j + 4] == BeWords(words[..k])[4 * j..4 * j + 4];
      assert LeWords(words)[4 * j..4 * j + 4] == LeWords(words[..k])[4 * j..4 * j + 4];
    }
  }

  lemma WordShifts(n: U32)
    ensures Be(n, 4) == [n / 0x100_0000 % 256, n / 0x1_0000 % 256, n / 0x100 % 256, n % 256]
    ensures Le(n, 4) == [n % 256, n / 0x100 % 256, n / 0x1_0000 % 256, n / 0x100_0000 % 256]
  {
    assert Be(n / 0x100_0000, 1) == Be(n / 0x100_0000 / 256, 0) + [n / 0x100_0000 % 256];
    assert Be(n / 0x1_0000, 2) == Be(n / 0x100_0000, 1) + [n / 0x1_0000 % 256];
    assert Be(n / 0x100, 3) == Be(n / 0x1_0000, 2) + [n / 0x100 % 256];
    assert Le(n / 0x100_0000, 1) == [n / 0x100_0000 % 256] + Le(n / 0x100_0000 / 256, 0);
    assert Le(n / 0x1_0000, 2) == [n / 0x1_0000 % 256] + Le(n / 0x100_0000, 1);
    assert Le(n / 0x100, 3) == [n / 0x100 % 256] + Le(n / 0x1_0000, 2);
  }

  /** All parts of a message, one after the other. */
  function Joined(parts: seq<seq<Byte>>): seq<Byte> {
    if parts == [] then [] else Joined(parts[..|parts| - 1]) + parts[|parts| - 1]
  }
}
