/** The streaming RIPEMD-160 object over an arbitrary compression function. */
module Ripemd160 {
  import opened Arith
  import opened BigEndian
  import opened Limbs
  import opened Wire
  import opened Blocks

  type State = s: seq<U32> | |s| == 5 witness [0, 0, 0, 0, 0]
  type Compress = (State, seq<Byte>) -> State

  const IV: State := [0x67452301, 0xEFCDAB89, 0x98BADCFE, 0x10325476, 0xC3D2E1F0]

  /** The initial value as bytes: the hexadecimal digits counted up, counted down, and then F0 E1 D2 C3. */
  lemma InitialValue()
    ensures LeNumber([0x01, 0x23, 0x45, 0x67]) == IV[0] && LeNumber([0x89, 0xab, 0xcd, 0xef]) == IV[1]
    ensures LeNumber([0xfe, 0xdc, 0xba, 0x98]) == IV[2] && LeNumber([0x76, 0x54, 0x32, 0x10]) == IV[3]
    ensures LeNumber([0xf0, 0xe1, 0xd2, 0xc3]) == IV[4]
  {
    FourBytes(0x01, 0x23, 0x45, 0x67);
    FourBytes(0x89, 0xab, 0xcd, 0xef);
    FourBytes(0xfe, 0xdc, 0xba, 0x98);
    FourBytes(0x76, 0x54, 0x32, 0x10);
    FourBytes(0xf0, 0xe1, 0xd2, 0xc3);
  }

  lemma FourBytes(a: Byte, b: Byte, c: Byte, d: Byte)
    ensures LeNumber([a, b, c, d]) == a + 0x100 * b + 0x1_0000 * c + 0x100_0000 * d
  {
    assert [a, b, c, d][1..] == [b, c, d] && [b, c, d][1..] == [c, d] && [c, d][1..] == [d];
    assert LeNumber([d]) == d + 256 * LeNumber([]);
    assert LeNumber([c, d]) == c + 256 * LeNumber([d]) && LeNumber([b, c, d]) == b + 256 * LeNumber([c, d]);
  }

  /** The compression function folded over the message padded as RFC 1320 pads it, words written little-endian. */
  function Digest(compress: Compress, m: seq<Byte>): seq<Byte> {
    LeWords(Fold(compress, IV, Md4Padded(m)))
  }

  /** The digest is the five words of the final chaining value, least significant byte first. */
  lemma DigestLayout(compress: Compress, m: seq<Byte>, j: nat)
    requires j < 5
    ensures var d := Digest(compress, m);
      |d| == 20 && LeNumber(d[4 * j..4 * j + 4]) == Fold(compress, IV, Md4Padded(m))[j]
  {
    hide Fold, Md4Padded, LeNumber;
    WordsRead(Fold(compress, IV, Md4Padded(m)), j);
  }

  class RIPEMD160 {
    const compress: Compress
    var state: State
    var count: U64
    const buffer: array<Byte>
    /** The bytes taken so far. */
    ghost var message: seq<Byte>

    ghost predicate Valid()
      reads this, buffer
    {
      && buffer.Length == 64
      && count == BitLength(|message|)
      && buffer[..|message| % 64] == Rest(message)
      && state == Fold(compress, IV, message)
    }

    constructor (compress: Compress)
      ensures Valid() && fresh(buffer) && message == [] && this.compress == compress
    {
      this.compress := compress;
      state, count, message := IV, 0, [];
      buffer := new Byte[64](i => 0);
    }

    method CopyInto(at: nat, src: seq<Byte>)
      requires buffer.Length == 64 && at + |src| <= 64
      modifies buffer
      ensures buffer[..at + |src|] == old(buffer[..at]) + src
    {
      forall k | 0 <= k < |src| { buffer[at + k] := src[k]; }
    }

    /** Whole blocks are compressed straight from the data. */
    method TakeBlocks(data: seq<Byte>, from: nat) returns (i: nat)
      requires from <= |data| && (|message| + from) % 64 == 0
      requires state == Fold(compress, IV, message + data[..from])
      modifies this`state
      ensures from <= i <= |data| < i + 64 && (|message| + i) % 64 == 0
      ensures state == Fold(compress, IV, message + data[..i])
    {
      hide Fold;
      i := from;
      while i + 63 < |data|
        invariant from <= i <= |data| && (|message| + i) % 64 == 0
        invariant state == Fold(compress, IV, message + data[..i])
        decreases |data| - i
      {
        FoldBlock(compress, IV, message + data[..i], data[i..i + 64]);
        NextBlock(message, data, i);
        state := compress(state, data[i..i + 64]);
        i := i + 64;
      }
    }

    /** A full buffer is compressed, then whole blocks straight from the data, and the rest is kept. */
    method Update(data: seq<Byte>)
      requires Valid()
      modifies this, buffer
      ensures Valid() && message == old(message) + data
    {
      hide Fold, Rest, BitLength, Whole;
      ghost var m := message;
      CountedBytes(|m|);
      MoreBits(|m|, |data|);
      var idx := count / 8 % 64;
      count := (count + |data| * 8) % 0x1_0000_0000_0000_0000;
      var partLen := 64 - idx;
      if |data| >= partLen {
        CopyInto(idx, data[..partLen]);
        assert buffer[..] == buffer[..64] == Rest(m) + data[..partLen];
        CompleteBlock(compress, IV, m, data[..partLen]);
        state := compress(state, buffer[..]);
        var i := TakeBlocks(data, partLen);
        CopyInto(0, data[i..]);
        message := m + data;
        KeptRest(compress, m, data, i);
        assert buffer[..|data| - i] == data[i..];
      } else {
        CopyInto(idx, data);
        AppendPartial(m, data);
        FoldWhole(compress, IV, m);
        FoldWhole(compress, IV, m + data);
        message := m + data;
      }
    }

    method Finalize() returns (hash: seq<Byte>)
      requires Valid()
      modifies this, buffer
      ensures hash == Digest(compress, old(message))
    {
      hide Fold, Rest, BitLength, Le, Zeros, LeWords, Pow;
      ghost var m := message;
      var padding: seq<Byte> := [0x80] + seq(63, i => 0);
      var bits := LengthBytes();
      CountedBytes(|m|);
      var idx := count / 8 % 64;
      var padLen := if idx < 56 then 56 - idx else 120 - idx;
      PadLength(|m|);
      Update(padding[..padLen]);
      Update(bits);
      assert padding[..padLen] == [0x80] + ZeroBytes(Zeros(|m|));
      PaddedIs(m, padding[..padLen], bits);
      hash := Output();
    }

    method LengthBytes() returns (bits: seq<Byte>)
      ensures bits == Le(count, 8)
    {
      hide Le, Pow;
      bits := [];
      LeNone(count);
      for i := 0 to 8
        invariant bits == Le(count, i)
      {
        PowPositive(256, i);
        LeSnoc(count, i);
        bits := bits + [count / Pow(256, i) % 256];
      }
    }

    method Output() returns (hash: seq<Byte>)
      ensures hash == LeWords(state)
    {
      hide Le, LeWords;
      hash := [];
      WordsNone();
      for j := 0 to 5
        invariant hash == LeWords(state[..j])
      {
        WordShifts(state[j]);
        hash := hash + [state[j] % 256, state[j] / 0x100 % 256, state[j] / 0x1_0000 % 256, state[j] / 0x100_0000 % 256];
        WordsSnoc(state[..j], state[j]);
        assert state[..j + 1] == state[..j] + [state[j]];
      }
      assert state[..5] == state;
    }
  }

  /** The bit counter, although it wraps at 2^64, still tells how full the buffer is. */
  lemma CountedBytes(n: nat)
    ensures BitLength(n) / 8 % 64 == n % 64
  {
    CountedQuotient(n, BitLength(n), n * 8 / 0x1_0000_0000_0000_0000);
  }

  lemma CountedQuotient(n: int, bits: int, q: int)
    requires n * 8 == q * 0x1_0000_0000_0000_0000 + bits
    ensures bits / 8 % 64 == n % 64
  {
    DivModUnique(bits, 8, n - 0x2000_0000_0000_0000 * q, 0);
    DivModUnique(n - 0x2000_0000_0000_0000 * q, 64, n / 64 - 0x80_0000_0000_0000 * q, n % 64);
  }

  lemma MoreBits(n: nat, k: nat)
    ensures BitLength(n + k) == (BitLength(n) + k * 8) % 0x1_0000_0000_0000_0000
  {
    var q, r := 8 * n / 0x1_0000_0000_0000_0000, BitLength(n) + k * 8;
    DivModUnique(8 * (n + k), 0x1_0000_0000_0000_0000, q + r / 0x1_0000_0000_0000_0000, r % 0x1_0000_0000_0000_0000);
  }

  lemma PadLength(n: nat)
    ensures (if n % 64 < 56 then 56 - n % 64 else 120 - n % 64) == Zeros(n) + 1
  {}

  lemma NextBlock(m: seq<Byte>, data: seq<Byte>, i: nat)
    requires i + 64 <= |data|
    ensures m + data[..i] + data[i..i + 64] == m + data[..i + 64]
  {}

  /** After whole blocks, fewer than 64 bytes are just kept. */
  lemma KeptRest(compress: Compress, m: seq<Byte>, data: seq<Byte>, i: nat)
    requires i <= |data| < i + 64 && (|m| + i) % 64 == 0
    ensures (|m| + |data|) % 64 == |data| - i && Rest(m + data) == data[i..]
    ensures Fold(compress, IV, m + data) == Fold(compress, IV, m + data[..i])
  {
    hide *;
    Remaining(|m|, |data|, i);
    Slices(m, data, i);
    FoldWhole(compress, IV, m + data);
  }

  lemma Slices(m: seq<Byte>, data: seq<Byte>, i: nat)
    requires i <= |data| && (|m| + |data|) % 64 == |data| - i
    ensures Whole(m + data) == m + data[..i] && Rest(m + data) == data[i..]
  {
    var all, n := m + data, |m| + i;
    assert |all| - |all| % 64 == n;
    assert all[..n] == m + data[..i] && all[n..] == data[i..];
  }

  lemma Remaining(m: nat, n: nat, i: nat)
    requires i <= n < i + 64 && (m + i) % 64 == 0
    ensures (m + n) % 64 == n - i
  {
    DivModUnique(m + n, 64, (m + i) / 64, n - i);
  }

  lemma PaddedIs(m: seq<Byte>, pad: seq<Byte>, bits: seq<Byte>)
    requires pad == [0x80] + ZeroBytes(Zeros(|m|)) && bits == Le(BitLength(|m|), 8)
    ensures (m + pad) + bits == Md4Padded(m)
  {
    hide Le, BitLength, Zeros, ZeroBytes;
  }

  lemma WordsSnoc(words: seq<U32>, w: U32)
    ensures LeWords(words + [w]) == LeWords(words) + Le(w, 4)
  {
    assert (words + [w])[..|words|] == words;
  }

  lemma WordsNone()
    ensures LeWords([]) == []
  {}

  /** However a message is split into updates, the digest is that of the whole. */
  method HashParts(compress: Compress, parts: seq<seq<Byte>>) returns (hash: seq<Byte>)
    ensures hash == Digest(compress, Joined(parts))
  {
    hide Fold, Md4Padded;
    var ctx := new RIPEMD160(compress);
    for i := 0 to |parts|
      invariant fresh(ctx) && fresh(ctx.buffer) && ctx.Valid() && ctx.compress == compress
      invariant ctx.message == Joined(parts[..i])
    {
      assert parts[..i + 1][..i] == parts[..i];
      ctx.Update(parts[i]);
    }
    assert parts[..|parts|] == parts;
    hash := ctx.Finalize();
  }
}
