/** Big-endian digit strings: values, shortest representations, and leading zeros. */
module BigEndian {
  import opened Arith
  import opened Digits

  type Byte = x: int | 0 <= x < 256

  /** The number whose base-b digits, most significant first, are s. */
  ghost function Big(s: seq<int>, b: int): int {
    if s == [] then 0 else s[0] * Pow(b, |s| - 1) + Big(s[1..], b)
  }

  lemma {:induction false} BigConcat(s: seq<int>, t: seq<int>, b: int)
    ensures Big(s + t, b) == Big(s, b) * Pow(b, |t|) + Big(t, b)
  {
    if s == [] {
      assert s + t == t;
    } else {
      assert (s + t)[1..] == s[1..] + t;
      BigConcat(s[1..], t, b);
      PowAdd(b, |s| - 1, |t|);
      MulAssoc(s[0], Pow(b, |s| - 1), Pow(b, |t|));
      DistributeRight(s[0] * Pow(b, |s| - 1), Big(s[1..], b), Pow(b, |t|));
    }
  }

  lemma DistributeRight(x: int, y: int, w: int)
    ensures (x + y) * w == x * w + y * w
  {}

  lemma BigSingle(x: int, b: int)
    ensures Big([x], b) == x
  {
    assert [x][1..] == [];
    assert Pow(b, 0) == 1;
  }

  lemma BigSnoc(s: seq<int>, x: int, b: int)
    ensures Big(s + [x], b) == Big(s, b) * b + x
  {
    BigConcat(s, [x], b);
    BigSingle(x, b);
    assert Pow(b, 1) == b * Pow(b, 0) == b;
  }

  lemma {:induction false} BigBound(s: seq<int>, b: int)
    requires 1 < b && AllDigits(s, b)
    ensures 0 <= Big(s, b) < Pow(b, |s|)
  {
    if s != [] {
      BigBound(s[1..], b);
      var w := Pow(b, |s| - 1);
      MulMono(s[0], b - 1, w);
      MulMono(0, s[0], w);
      DistributeRight(b - 1, 1, w);
    }
  }

  ghost predicate AllZero(s: seq<int>) {
    forall i :: 0 <= i < |s| ==> s[i] == 0
  }

  lemma {:induction false} BigZeros(s: seq<int>, b: int)
    requires AllZero(s)
    ensures Big(s, b) == 0
  {
    if s != [] { BigZeros(s[1..], b); }
  }

  /** Leading zeros do not change the number. */
  lemma BigPadded(z: seq<int>, s: seq<int>, b: int)
    requires AllZero(z)
    ensures Big(z + s, b) == Big(s, b)
  {
    BigZeros(z, b);
    BigConcat(z, s, b);
  }

  /** Digit strings of one length are determined by their number. */
  lemma {:induction false} BigInjective(s: seq<int>, t: seq<int>, b: int)
    requires 1 < b && AllDigits(s, b) && AllDigits(t, b)
    requires |s| == |t| && Big(s, b) == Big(t, b)
    ensures s == t
    decreases |s|
  {
    hide Big;
    if s != [] {
      var k := |s| - 1;
      assert s == s[..k] + [s[k]] && t == t[..k] + [t[k]];
      BigSnoc(s[..k], s[k], b);
      BigSnoc(t[..k], t[k], b);
      DivModUnique(Big(s, b), b, Big(s[..k], b), s[k]);
      DivModUnique(Big(s, b), b, Big(t[..k], b), t[k]);
      BigInjective(s[..k], t[..k], b);
    }
  }

  /** The digits of n without leading zeros; none for 0. */
  ghost function Shortest(n: nat, b: int): (s: seq<int>)
    requires 1 < b
    ensures AllDigits(s, b) && (s != [] ==> s[0] != 0)
    ensures s == [] <==> n == 0
    decreases n
  {
    if n == 0 then [] else
      DivSmaller(n, b);
      Shortest(n / b, b) + [n % b]
  }

  lemma DivSmaller(n: nat, b: int)
    requires 1 < b && 0 < n
    ensures 0 <= n / b < n
  {
    MulStrict2(1, b, n);
    assert b * n == n * b;
    DivBelow(n, b, n);
  }

  lemma QuotientRemainder(n: int, b: int)
    requires 0 < b
    ensures n / b * b + n % b == n
  {}

  lemma {:induction false} ShortestValue(n: nat, b: int)
    requires 1 < b
    ensures Big(Shortest(n, b), b) == n
    decreases n
  {
    hide Pow, Big;
    if n == 0 {
      BigZeros([], b);
    } else {
      DivSmaller(n, b);
      var q, x := n / b, n % b;
      assert Shortest(n, b) == Shortest(q, b) + [x];
      hide Shortest;
      ShortestValue(q, b);
      QuotientRemainder(n, b);
      BigSnoc(Shortest(q, b), x, b);
    }
  }

  /** A number below b^k has at most k digits. */
  lemma ShortestLength(n: nat, b: int, k: nat)
    requires 1 < b && n < Pow(b, k)
    ensures |Shortest(n, b)| <= k
  {
    hide Pow, Big;
    var s := Shortest(n, b);
    ShortestValue(n, b);
    if |s| > k {
      BigTop(s, b);
      PowGrows(b, k, |s| - 1);
    }
  }

  lemma BigTop(s: seq<int>, b: int)
    requires 1 < b && AllDigits(s, b) && s != [] && s[0] != 0
    ensures Pow(b, |s| - 1) <= Big(s, b)
  {
    BigBound(s[1..], b);
    PowPositive(b, |s| - 1);
    MulMono(1, s[0], Pow(b, |s| - 1));
  }

  lemma BigPositive(s: seq<int>, b: int)
    requires 1 < b && AllDigits(s, b) && s != [] && s[0] != 0
    ensures 0 < Big(s, b)
  {
    BigBound(s[1..], b);
    PowPositive(b, |s| - 1);
    MulPositive(s[0], Pow(b, |s| - 1));
  }

  /** A digit string without leading zeros is the shortest one for its number. */
  lemma {:induction false} ShortestUnique(s: seq<int>, b: int)
    requires 1 < b && AllDigits(s, b)
    requires s != [] ==> s[0] != 0
    ensures Big(s, b) >= 0 && Shortest(Big(s, b), b) == s
    decreases |s|
  {
    if s != [] {
      var k := |s| - 1;
      var front, x := s[..k], s[k];
      assert s == front + [x];
      BigPositive(s, b);
      BigSnoc(front, x, b);
      ShortestUnique(front, b);
      Unfolded(Big(s, b), Big(front, b), x, b);
    }
  }

  lemma Unfolded(n: nat, q: nat, x: int, b: int)
    requires 1 < b && 0 < n && n == q * b + x && 0 <= x < b
    ensures Shortest(n, b) == Shortest(q, b) + [x]
  {
    DivModUnique(n, b, q, x);
  }

  /** How many elements at the front equal x. */
  function Leading<T(==)>(s: seq<T>, x: T): (n: nat)
    ensures n <= |s| && (forall i :: 0 <= i < n ==> s[i] == x) && (n < |s| ==> s[n] != x)
  {
    if s == [] || s[0] != x then 0 else 1 + Leading(s[1..], x)
  }

  /** The count is the only number with these properties. */
  lemma {:induction false} LeadingUnique<T>(s: seq<T>, x: T, n: nat)
    requires n <= |s| && (forall i :: 0 <= i < n ==> s[i] == x) && (n < |s| ==> s[n] != x)
    ensures Leading(s, x) == n
  {
    if n > 0 { LeadingUnique(s[1..], x, n - 1); }
  }

  /** Dropping the leading zeros leaves the shortest digits of the number. */
  lemma SkipZeros(s: seq<int>, b: int)
    requires 1 < b && AllDigits(s, b)
    ensures Big(s, b) >= 0 && s[Leading(s, 0)..] == Shortest(Big(s, b), b)
  {
    var z := Leading(s, 0);
    assert s == s[..z] + s[z..];
    BigPadded(s[..z], s[z..], b);
    ShortestUnique(s[z..], b);
  }

  // ---- Changing the base of a string of digits, leading zeros kept one for one ----

  ghost function Recode(s: seq<int>, from: int, to: int): (t: seq<int>)
    requires 1 < from && 1 < to && AllDigits(s, from)
    ensures AllDigits(t, to)
  {
    BigBound(s, from);
    ZeroRun(Leading(s, 0)) + Shortest(Big(s, from), to)
  }

  /** Changing the base and changing it back restores the digits, leading zeros included. */
  lemma RecodeInverse(s: seq<int>, from: int, to: int)
    requires 1 < from && 1 < to && AllDigits(s, from)
    ensures Recode(Recode(s, from, to), to, from) == s
    ensures Leading(Recode(s, from, to), 0) == Leading(s, 0)
  {
    hide Big, Shortest, Leading;
    BigBound(s, from);
    var z, n := Leading(s, 0), Big(s, from);
    var t, zeros := Recode(s, from, to), ZeroRun(z);
    LeadingUnique(t, 0, z);
    RecodedValue(zeros, n, to);
    SkipZeros(s, from);
    LeadingZeros(s);
  }

  ghost function ZeroRun(z: nat): (zeros: seq<int>)
    ensures |zeros| == z && AllZero(zeros)
  {
    seq(z, i => 0)
  }

  lemma RecodedValue(zeros: seq<int>, n: nat, b: int)
    requires 1 < b && AllZero(zeros)
    ensures Big(zeros + Shortest(n, b), b) == n
  {
    BigPadded(zeros, Shortest(n, b), b);
    ShortestValue(n, b);
  }

  lemma LeadingZeros(s: seq<int>)
    ensures s == ZeroRun(Leading(s, 0)) + s[Leading(s, 0)..]
  {
    hide Leading;
  }
}
