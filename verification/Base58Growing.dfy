/** The address decoder that grows a little-endian accumulator instead of sizing a buffer. */
module Base58Growing {
  import opened Arith
  import opened Digits
  import opened BigEndian
  import opened Results
  import opened Base58

  /** What strchr finds: an alphabet position, or the terminator's for the NUL character; -1 for neither. */
  function Position(c: char): (p: int)
    ensures -1 <= p <= 58 && (p != 58 ==> p == DigitOf(c)) && (p == 58 <==> c == '\0')
  {
    if c == '\0' then 58 else DigitOf(c)
  }

  predicate Accepted(s: string) {
    forall i :: 0 <= i < |s| ==> 0 <= Position(s[i])
  }

  function Positions(s: string): (d: seq<int>)
    ensures |d| == |s| && forall i :: 0 <= i < |s| ==> d[i] == Position(s[i])
  {
    seq(|s|, i requires 0 <= i < |s| => Position(s[i]))
  }

  ghost function Reversed(s: seq<int>): (r: seq<int>)
    ensures |r| == |s| && forall i :: 0 <= i < |s| ==> r[i] == s[|s| - 1 - i]
  {
    seq(|s|, i requires 0 <= i < |s| => s[|s| - 1 - i])
  }

  lemma {:induction false} ReversedValue(s: seq<int>, b: int)
    ensures Big(Reversed(s), b) == Num(s, b)
  {
    if s != [] {
      ReversedValue(s[1..], b);
      assert Reversed(s) == Reversed(s[1..]) + [s[0]];
      BigSnoc(Reversed(s[1..]), s[0], b);
    }
  }

  /** No needless zero byte at the top of the accumulator. */
  predicate Tight(num: seq<Byte>) {
    num != [] ==> num[|num| - 1] != 0
  }

  lemma BytesAreDigits(num: seq<Byte>)
    ensures AllDigits(num, 256) && 0 <= Num(num, 256) < Pow(256, |num|)
  {
    NumBound(num, 256);
  }

  /** Reversing a tight accumulator gives the shortest bytes of its number. */
  lemma TightReversed(num: seq<Byte>)
    requires Tight(num)
    ensures Num(num, 256) >= 0 && Reversed(num) == Shortest(Num(num, 256), 256)
  {
    BytesAreDigits(num);
    ReversedValue(num, 256);
    ShortestUnique(Reversed(num), 256);
  }

  lemma Advance(done: int, doneOld: int, was: int, x: int, carry: int, next: int, w: int, add: int)
    requires done + w * carry == 58 * doneOld + add
    requires x + 256 * next == was * 58 + carry
    ensures (done + w * x) + (256 * w) * next == 58 * (doneOld + w * was) + add
  {
    assert w * (x + 256 * next) == w * x + (256 * w) * next;
    assert w * (was * 58 + carry) == 58 * (w * was) + w * carry;
  }

  /** num becomes 58 * num + add, one byte longer at most. */
  method MultiplyAddGrowing(num0: seq<Byte>, add: int) returns (num: seq<Byte>)
    requires Tight(num0) && 0 <= add <= 58
    ensures Tight(num) && Num(num, 256) == 58 * Num(num0, 256) + add
  {
    hide Num, Pow;
    num := num0;
    var carry := add;
    var i := 0;
    NumNone(num[..0], 256);
    NumNone(num0[..0], 256);
    while i < |num|
      invariant 0 <= i <= |num| == |num0| && 0 <= carry <= 58
      invariant num[i..] == num0[i..]
      invariant i > 0 ==> num[i - 1] + 256 * carry >= 58 * num0[i - 1]
      invariant Num(num[..i], 256) + Pow(256, i) * carry == 58 * Num(num0[..i], 256) + add
    {
      ghost var front, was, c := num[..i], num[i..][0], carry;
      assert was == num0[i..][0] == num0[i] == num[i];
      var val := num[i] * 58 + carry;
      num := num[i := val % 256];
      carry := val / 256;
      Advance(Num(front, 256), Num(num0[..i], 256), was, num[i], c, carry, Pow(256, i), add);
      NumSnoc(front, num[i], 256);
      NumSnoc(num0[..i], num0[i], 256);
      assert num[..i + 1] == front + [num[i]];
      assert num0[..i + 1] == num0[..i] + [num0[i]];
      PowNext(256, i);
      i := i + 1;
    }
    assert num[..i] == num && num0[..i] == num0;
    while carry != 0
      invariant 0 <= carry <= 58 && Tight(num0) && (carry != 0 ==> |num| == |num0|)
      invariant Num(num, 256) + Pow(256, |num|) * carry == 58 * Num(num0, 256) + add
      invariant carry == 0 ==> Tight(num)
      decreases carry
    {
      NumSnoc(num, carry, 256);
      num := num + [carry % 256];
      carry := carry / 256;
    }
  }

  lemma NumNone(s: seq<int>, b: int)
    requires s == []
    ensures Num(s, b) == 0 && Pow(b, 0) == 1
  {}

  lemma PowNext(b: int, i: nat)
    ensures Pow(b, i + 1) == b * Pow(b, i)
  {}

  // ---- The decoder ----

  lemma {:induction false} BigNonNegative(s: seq<int>, b: int)
    requires 0 < b && forall i :: 0 <= i < |s| ==> 0 <= s[i]
    ensures 0 <= Big(s, b)
  {
    if s != [] {
      BigNonNegative(s[1..], b);
      PowPositive(b, |s| - 1);
      MulMono(0, s[0], Pow(b, |s| - 1));
    }
  }

  /** The bytes of the accumulated number behind one zero byte per leading '1'. */
  ghost function Accumulated(s: string): (b: seq<int>)
    requires Accepted(s)
  {
    BigNonNegative(Positions(s), 58);
    seq(Leading(s, '1'), i => 0) + Shortest(Big(Positions(s), 58), 256)
  }

  /** The growing decoder reads every alphabet string as the fixed-buffer decoder does; the only other strings it
      takes contain NUL. */
  lemma DecodersAgree(s: string)
    ensures InAlphabet(s) ==> Accepted(s) && Accumulated(s) == Decoded(s)
    ensures Accepted(s) ==> (InAlphabet(s) <==> '\0' !in s)
  {
    if InAlphabet(s) {
      assert Positions(s) == DigitsOf(s);
    }
    if Accepted(s) && '\0' !in s {
      forall i | 0 <= i < |s| ensures 0 <= DigitOf(s[i]) {
        assert Position(s[i]) == DigitOf(s[i]);
      }
    }
  }

  /** base58check_decode: 25 bytes or nothing, of which bytes 1 to 20 are the hash. */
  method Base58CheckDecode(address: string) returns (r: Result<seq<Byte>>)
    ensures !Accepted(address) ==> r == Err("Invalid base58 character")
    ensures Accepted(address) && |Accumulated(address)| != 25 ==> r == Err("Invalid address length")
    ensures Accepted(address) && |Accumulated(address)| == 25 ==> r == Ok(Accumulated(address)[1..21])
  {
    hide Num, Big, Pow, Position, Leading, Shortest, Reversed;
    var num: seq<Byte> := [];
    var j := 0;
    BigZeros([], 58);
    NumNone([], 256);
    while j < |address|
      invariant 0 <= j <= |address| && Accepted(address[..j])
      invariant Tight(num) && Num(num, 256) == Big(Positions(address[..j]), 58)
    {
      var pos := Position(address[j]);
      if pos == -1 {
        return Err("Invalid base58 character");
      }
      num := MultiplyAddGrowing(num, pos);
      assert Positions(address[..j + 1]) == Positions(address[..j]) + [pos];
      BigSnoc(Positions(address[..j]), pos, 58);
      j := j + 1;
    }
    assert address[..j] == address;
    var leading := CountLeading(address, '1');
    var decoded: seq<Byte> := seq(leading, i => 0);
    ghost var zeros: seq<int> := decoded;
    var k := |num|;
    while k > 0
      invariant 0 <= k <= |num|
      invariant decoded == zeros + Reversed(num)[..|num| - k]
    {
      k := k - 1;
      decoded := decoded + [num[k]];
    }
    TightReversed(num);
    assert decoded == Accumulated(address);
    if |decoded| != 25 {
      return Err("Invalid address length");
    }
    return Ok(decoded[1..21]);
  }
}
