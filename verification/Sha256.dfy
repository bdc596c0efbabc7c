/** The streaming SHA-256 object over an arbitrary compression function. */
module Sha256 {
  import opened BigEndian
  import opened Limbs
  import opened Wire
  import opened Blocks

  type State = s: seq<U32> | |s| == 8 witness [0, 0, 0, 0, 0, 0, 0, 0]
  type Compress = (State, seq<Byte>) -> State

  const IV: State := [0x6a09e667, 0xbb67ae85, 0x3c6ef372, 0xa54ff53a, 0x510e527f, 0x9b05688c, 0x1f83d9ab, 0x5be0cd19]

  /** FIPS 180-4 section 5.3.3: the first 32 bits of the fractional part of the square root of a prime. */
  predicate RootFraction(w: U32, prime: nat, whole: nat) {
    var r := whole * 0x1_0000_0000 + w;
    r * r <= prime * 0x1_0000_0000_0000_0000 < (r + 1) * (r + 1)
  }

  /** The initial value comes from the first eight primes. */
  lemma InitialValue()
    ensures RootFraction(IV[0], 2, 1) && RootFraction(IV[1], 3, 1) && RootFraction(IV[2], 5, 2) && RootFraction(IV[3], 7, 2)
    ensures RootFraction(IV[4], 11, 3) && RootFraction(IV[5], 13, 3) && RootFraction(IV[6], 17, 4) && RootFraction(IV[7], 19, 4)
  {}

  /** FIPS 180-4 section 6.2.2: the compression function folded over the padded message. */
  function Digest(compress: Compress, m: seq<Byte>): seq<Byte> {
    BeWords(Fold(compress, IV, ShaPadded(m)))
  }

  /** The digest is the eight words of the final chaining value, most significant byte first. */
  lemma DigestLayout(compress: Compress, m: seq<Byte>, j: nat)
    requires j < 8
    ensures var d := Digest(compress, m);
      |d| == 32 && Big(d[4 * j..4 * j + 4], 256) == Fold(compress, IV, ShaPadded(m))[j]
  {
    hide Fold, ShaPadded, Big;
    WordsRead(Fold(compress, IV, ShaPadded(m)), j);
  }

  class SHA256 {
    const compress: Compress
    var state: State
    var bitlen: U64
    const buffer: array<Byte>
    var buflen: nat
    /** The bytes taken so far. */
    ghost var message: seq<Byte>

    ghost predicate Valid()
      reads this, buffer
    {
      && buffer.Length == 64
      && buflen == |message| % 64
      && buffer[..buflen] == Rest(message)
      && state == Fold(compress, IV, message)
      && bitlen == BitLength(|message| - buflen)
    }

    constructor (compress: Compress)
      ensures Valid() && fresh(buffer) && message == [] && this.compress == compress
    {
      this.compress := compress;
      state, bitlen, buflen, message := IV, 0, 0, [];
      buffer := new Byte[64](i => 0);
    }

    /** The compression of the buffer into the state. */
    method Transform()
      requires buffer.Length == 64
      modifies this`state
      ensures state == compress(old(state), buffer[..])
    {
      state := compress(state, buffer[..]);
    }

    method Update(data: seq<Byte>)
      requires Valid()
      modifies this, buffer
      ensures Valid() && message == old(message) + data
    {
      hide Fold, Rest, BitLength, Whole;
      for i := 0 to |data|
        invariant Valid() && message == old(message) + data[..i]
      {
        assert data[..i + 1] == data[..i] + [data[i]];
        TakeByte(data[i]);
      }
      assert data[..|data|] == data;
    }

    /** One round of the update loop. */
    method TakeByte(byte: Byte)
      requires Valid()
      modifies this, buffer
      ensures Valid() && message == old(message) + [byte]
    {
      hide Fold, Rest, BitLength, Whole;
      ghost var before, rest := message, buffer[..buflen];
      Residue(|before|);
      buffer[buflen] := byte;
      buflen := buflen + 1;
      message := message + [byte];
      assert buffer[..buflen] == rest + [byte];
      if buflen == 64 {
        CompleteBlock(compress, IV, before, [byte]);
        assert buffer[..] == rest + [byte];
        Transform();
        bitlen := (bitlen + 512) % 0x1_0000_0000_0000_0000;
        buflen := 0;
        MoreBits(|before| - 63);
        RestEmpty(message);
        assert buffer[..0] == [];
      } else {
        AppendPartial(before, [byte]);
        FoldWhole(compress, IV, before);
        FoldWhole(compress, IV, message);
      }
    }

    /** Zero bytes from one position up to another. */
    method FillZeros(from: nat, to: nat)
      requires from <= to <= 64 && buffer.Length == 64
      modifies buffer
      ensures buffer[..to] == old(buffer[..from]) + ZeroBytes(to - from)
    {
      var i := from;
      while i < to
        invariant from <= i <= to
        invariant buffer[..from] == old(buffer[..from]) && forall k :: from <= k < i ==> buffer[k] == 0
      {
        buffer[i] := 0;
        i := i + 1;
      }
    }

    method StoreLength()
      requires buffer.Length == 64
      modifies buffer
      ensures buffer[..] == old(buffer[..56]) + Be(bitlen, 8)
    {
      hide Be;
      BeShifts(bitlen);
      buffer[63] := bitlen % 256;
      buffer[62] := bitlen / 0x100 % 256;
      buffer[61] := bitlen / 0x1_0000 % 256;
      buffer[60] := bitlen / 0x100_0000 % 256;
      buffer[59] := bitlen / 0x1_0000_0000 % 256;
      buffer[58] := bitlen / 0x100_0000_0000 % 256;
      buffer[57] := bitlen / 0x1_0000_0000_0000 % 256;
      buffer[56] := bitlen / 0x100_0000_0000_0000 % 256;
    }

    method Output() returns (hash: seq<Byte>)
      ensures hash == BeWords(state)
    {
      hide Be, BeWords;
      hash := [];
      WordsNone();
      for j := 0 to 8
        invariant hash == BeWords(state[..j])
      {
        WordShifts(state[j]);
        hash := hash + [state[j] / 0x100_0000 % 256, state[j] / 0x1_0000 % 256, state[j] / 0x100 % 256, state[j] % 256];
        WordsSnoc(state[..j], state[j]);
        assert state[..j + 1] == state[..j] + [state[j]];
      }
      assert state[..8] == state;
    }

    method Finalize() returns (hash: seq<Byte>)
      requires Valid()
      modifies this, buffer
      ensures hash == Digest(compress, old(message))
    {
      hide Fold, Rest, BitLength, Be, BeWords, ZeroBytes, ShaPadded;
      ghost var m, rest, start := message, buffer[..buflen], state;
      buffer[buflen] := 0x80;
      assert buffer[..buflen + 1] == rest + [0x80];
      LastBits(|m|);
      if buflen < 56 {
        FillZeros(buflen + 1, 56);
        bitlen := (bitlen + buflen * 8) % 0x1_0000_0000_0000_0000;
        OneBlock(compress, m, rest, buffer[..56], start);
      } else {
        FillZeros(buflen + 1, 64);
        ghost var full := buffer[..];
        assert full == buffer[..64];
        Transform();
        FillZeros(0, 56);
        assert buffer[..56] == ZeroBytes(56);
        bitlen := (bitlen + buflen * 8) % 0x1_0000_0000_0000_0000;
        TwoBlocks(compress, m, rest, full, start);
      }
      StoreLength();
      Transform();
      hash := Output();
    }
  }

  lemma Residue(n: nat)
    ensures (n + 1) % 64 == if n % 64 == 63 then 0 else n % 64 + 1
  {}

  lemma MoreBits(n: nat)
    ensures BitLength(n + 64) == (BitLength(n) + 512) % 0x1_0000_0000_0000_0000
  {}

  lemma RestEmpty(m: seq<Byte>)
    requires |m| % 64 == 0
    ensures Rest(m) == []
  {}

  lemma LastBits(n: nat)
    ensures BitLength(n) == (BitLength(n - n % 64) + n % 64 * 8) % 0x1_0000_0000_0000_0000
  {}

  lemma WordsSnoc(words: seq<U32>, w: U32)
    ensures BeWords(words + [w]) == BeWords(words) + Be(w, 4)
  {
    assert (words + [w])[..|words|] == words;
  }

  lemma WordsNone()
    ensures BeWords([]) == []
  {}

  lemma ZerosIs(n: nat)
    ensures Zeros(n) == if n % 64 < 56 then 55 - n % 64 else 119 - n % 64
  {}

  lemma Regroup(m: seq<Byte>, z: seq<Byte>)
    requires z == ZeroBytes(Zeros(|m|))
    ensures ShaPadded(m) == Whole(m) + (Rest(m) + [0x80] + z + Be(BitLength(|m|), 8))
  {
    hide Be, BitLength, Zeros, ZeroBytes, Whole, Rest;
    assert m == Whole(m) + Rest(m);
    Associate(Whole(m), Rest(m), z, Be(BitLength(|m|), 8));
  }

  lemma Associate(w: seq<Byte>, r: seq<Byte>, z: seq<Byte>, l: seq<Byte>)
    ensures w + r + [0x80] + z + l == w + (r + [0x80] + z + l)
  {}

  lemma Split(w: seq<Byte>, r: seq<Byte>, y: seq<Byte>, z: seq<Byte>, l: seq<Byte>)
    ensures w + (r + (y + z) + l) == w + (r + y) + (z + l)
  {}

  /** With room for the length, the rest of the padded message is one block. */
  lemma OneBlock(compress: Compress, m: seq<Byte>, rest: seq<Byte>, front: seq<Byte>, start: State)
    requires rest == Rest(m) && start == Fold(compress, IV, m) && |rest| < 56
    requires front == rest + [0x80] + ZeroBytes(55 - |rest|)
    ensures Fold(compress, IV, ShaPadded(m)) == compress(start, front + Be(BitLength(|m|), 8))
  {
    hide Fold, Be, BitLength, Zeros, ZeroBytes, Whole, Rest, ShaPadded;
    ZerosIs(|m|);
    FoldWhole(compress, IV, m);
    Regroup(m, ZeroBytes(55 - |rest|));
    FoldBlock(compress, IV, Whole(m), front + Be(BitLength(|m|), 8));
  }

  lemma ZeroBytesSplit(j: nat, k: nat)
    ensures ZeroBytes(j + k) == ZeroBytes(j) + ZeroBytes(k)
  {}

  lemma FoldTwo(compress: Compress, w: seq<Byte>, a: seq<Byte>, b: seq<Byte>)
    requires |w| % 64 == 0 && |a| == 64 && |b| == 64
    ensures Fold(compress, IV, w + a + b) == compress(compress(Fold(compress, IV, w), a), b)
  {
    hide Fold;
    FoldBlock(compress, IV, w, a);
    FoldBlock(compress, IV, w + a, b);
  }

  /** Without it, the rest is two blocks, the second starting with zeros. */
  lemma TwoBlocks(compress: Compress, m: seq<Byte>, rest: seq<Byte>, full: seq<Byte>, start: State)
    requires rest == Rest(m) && start == Fold(compress, IV, m) && |rest| >= 56
    requires full == rest + [0x80] + ZeroBytes(63 - |rest|)
    ensures Fold(compress, IV, ShaPadded(m)) == compress(compress(start, full), ZeroBytes(56) + Be(BitLength(|m|), 8))
  {
    hide Fold, Be, BitLength, Zeros, ZeroBytes, Whole, Rest, ShaPadded;
    var last := ZeroBytes(56) + Be(BitLength(|m|), 8);
    ZerosIs(|m|);
    FoldWhole(compress, IV, m);
    ZeroBytesSplit(63 - |rest|, 56);
    Regroup(m, ZeroBytes(63 - |rest|) + ZeroBytes(56));
    Split(Whole(m), rest + [0x80], ZeroBytes(63 - |rest|), ZeroBytes(56), Be(BitLength(|m|), 8));
    FoldTwo(compress, Whole(m), full, last);
  }

  /** However a message is split into updates, the digest is that of the whole. */
  method HashParts(compress: Compress, parts: seq<seq<Byte>>) returns (hash: seq<Byte>)
    ensures hash == Digest(compress, Joined(parts))
  {
    hide Fold, ShaPadded;
    var ctx := new SHA256(compress);
    for i := 0 to |parts|
      invariant fresh(ctx) && fresh(ctx.buffer) && ctx.Valid() && ctx.compress == compress
      invariant ctx.message == Joined(parts[..i])
    {
      assert parts[..i + 1][..i] == parts[..i];
      ctx.Update(parts[i]);
    }
    assert parts[..|parts|] == parts;
    hash := ctx.Finalize();
  }
}
