/** Little-endian digit strings in an arbitrary base, shared by the limb arithmetic and the codecs. */
module Digits {
  import opened Arith

  ghost predicate AllDigits(s: seq<int>, b: int) {
    forall i :: 0 <= i < |s| ==> 0 <= s[i] < b
  }

  /** The number whose base-b digits, least significant first, are s. */
  ghost function Num(s: seq<int>, b: int): int {
    if s == [] then 0 else s[0] + b * Num(s[1..], b)
  }

  lemma {:induction false} NumBound(s: seq<int>, b: int)
    requires 1 < b && AllDigits(s, b)
    ensures 0 <= Num(s, b) < Pow(b, |s|)
  {
    if s != [] {
      NumBound(s[1..], b);
      var n, w := Num(s[1..], b), Pow(b, |s| - 1);
      MulMono(n, w - 1, b);
      assert b * (w - 1) == b * w - b;
    }
  }

  lemma {:induction false} NumConcat(s: seq<int>, t: seq<int>, b: int)
    ensures Num(s + t, b) == Num(s, b) + Pow(b, |s|) * Num(t, b)
  {
    if s == [] {
      assert s + t == t;
    } else {
      assert (s + t)[1..] == s[1..] + t;
      NumConcat(s[1..], t, b);
      var w := Pow(b, |s| - 1);
      MulAssoc(b, w, Num(t, b));
      assert b * (Num(s[1..], b) + w * Num(t, b)) == b * Num(s[1..], b) + b * (w * Num(t, b));
    }
  }

  lemma NumSplit(s: seq<int>, k: nat, b: int)
    requires k <= |s|
    ensures Num(s, b) == Num(s[..k], b) + Pow(b, k) * Num(s[k..], b)
  {
    assert s == s[..k] + s[k..];
    NumConcat(s[..k], s[k..], b);
  }

  lemma NumSingle(x: int, b: int)
    ensures Num([x], b) == x
  {
    assert [x][1..] == [];
  }

  /** One more digit at the top. */
  lemma NumSnoc(s: seq<int>, x: int, b: int)
    ensures Num(s + [x], b) == Num(s, b) + Pow(b, |s|) * x
  {
    NumConcat(s, [x], b);
    NumSingle(x, b);
  }

  /** The first k+1 digits, from the first k. */
  lemma NumTake(s: seq<int>, k: nat, b: int)
    requires k < |s|
    ensures Num(s[..k + 1], b) == Num(s[..k], b) + Pow(b, k) * s[k]
  {
    assert s[..k + 1] == s[..k] + [s[k]];
    NumSnoc(s[..k], s[k], b);
  }

  /** Changing one digit changes the number by the difference times the digit's weight. */
  lemma NumUpdate(s: seq<int>, i: nat, v: int, b: int)
    requires i < |s|
    ensures Num(s[i := v], b) == Num(s, b) + Pow(b, i) * (v - s[i])
  {
    var t := s[i := v];
    NumSplit(s, i, b);
    NumSplit(t, i, b);
    assert t[..i] == s[..i];
    assert s[i..][1..] == s[i + 1..] == t[i + 1..] == t[i..][1..];
    var n := Num(s[i + 1..], b);
    assert Pow(b, i) * (v + b * n) - Pow(b, i) * (s[i] + b * n) == Pow(b, i) * (v - s[i]);
  }

  lemma {:induction false} NumZeros(s: seq<int>, b: int)
    requires forall i :: 0 <= i < |s| ==> s[i] == 0
    ensures Num(s, b) == 0
  {
    if s != [] { NumZeros(s[1..], b); }
  }

  /** A number with only zero digits above position k is given by its first k digits. */
  lemma NumTopZeros(s: seq<int>, k: nat, b: int)
    requires k <= |s|
    requires forall i :: k <= i < |s| ==> s[i] == 0
    ensures Num(s, b) == Num(s[..k], b)
  {
    NumSplit(s, k, b);
    NumZeros(s[k..], b);
    assert Pow(b, k) * 0 == 0;
  }

  /** Digit strings of one length are determined by their number. */
  lemma {:induction false} NumInjective(s: seq<int>, t: seq<int>, b: int)
    requires 1 < b && AllDigits(s, b) && AllDigits(t, b)
    requires |s| == |t| && Num(s, b) == Num(t, b)
    ensures s == t
  {
    if s != [] {
      var m, n := Num(s[1..], b), Num(t[1..], b);
      DivModUnique(Num(s, b), b, m, s[0]);
      DivModUnique(Num(t, b), b, n, t[0]);
      NumInjective(s[1..], t[1..], b);
      assert s == [s[0]] + s[1..] && t == [t[0]] + t[1..];
    }
  }
}
