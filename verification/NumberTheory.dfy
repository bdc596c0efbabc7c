/** Congruences, primes, Fermat's little theorem and square roots modulo a prime p = 3 (mod 4). */
module NumberTheory {
  import opened Arith

  /** a and b leave the same remainder modulo m. */
  ghost predicate Cong(a: int, b: int, m: int)
    requires 0 < m
  {
    (a - b) % m == 0
  }

  lemma CongIntro(a: int, b: int, m: int, k: int)
    requires 0 < m
    requires a == b + k * m
    ensures Cong(a, b, m)
  {
    DivModUnique(a - b, m, k, 0);
  }

  ghost function CongElim(a: int, b: int, m: int): (k: int)
    requires 0 < m
    requires Cong(a, b, m)
    ensures a == b + k * m
  {
    (a - b) / m
  }

  lemma CongRefl(a: int, m: int)
    requires 0 < m
    ensures Cong(a, a, m)
  {
    CongIntro(a, a, m, 0);
  }

  lemma CongSym(a: int, b: int, m: int)
    requires 0 < m
    requires Cong(a, b, m)
    ensures Cong(b, a, m)
  {
    var k := CongElim(a, b, m);
    assert b == a + (-k) * m;
    CongIntro(b, a, m, -k);
  }

  lemma CongTrans(a: int, b: int, c: int, m: int)
    requires 0 < m
    requires Cong(a, b, m) && Cong(b, c, m)
    ensures Cong(a, c, m)
  {
    var k, l := CongElim(a, b, m), CongElim(b, c, m);
    assert a == c + (k + l) * m;
    CongIntro(a, c, m, k + l);
  }

  lemma CongAdd(a: int, b: int, c: int, d: int, m: int)
    requires 0 < m
    requires Cong(a, b, m) && Cong(c, d, m)
    ensures Cong(a + c, b + d, m)
    ensures Cong(a - c, b - d, m)
  {
    var k, l := CongElim(a, b, m), CongElim(c, d, m);
    assert a + c == (b + d) + (k + l) * m;
    CongIntro(a + c, b + d, m, k + l);
    assert a - c == (b - d) + (k - l) * m;
    CongIntro(a - c, b - d, m, k - l);
  }

  lemma CongMul(a: int, b: int, c: int, d: int, m: int)
    requires 0 < m
    requires Cong(a, b, m) && Cong(c, d, m)
    ensures Cong(a * c, b * d, m)
  {
    var k, l := CongElim(a, b, m), CongElim(c, d, m);
    calc {
      a * c;
      (b + k * m) * (d + l * m);
      b * d + b * (l * m) + (k * m) * d + (k * m) * (l * m);
      { assert b * (l * m) == (b * l) * m; assert (k * m) * d == (k * d) * m;
        assert (k * m) * (l * m) == (k * l * m) * m; }
      b * d + (b * l) * m + (k * d) * m + (k * l * m) * m;
      b * d + (b * l + k * d + k * l * m) * m;
    }
    CongIntro(a * c, b * d, m, b * l + k * d + k * l * m);
  }

  lemma {:induction false} CongPow(a: int, b: int, e: nat, m: int)
    requires 0 < m
    requires Cong(a, b, m)
    ensures Cong(Pow(a, e), Pow(b, e), m)
  {
    if e == 0 {
      CongRefl(1, m);
    } else {
      CongPow(a, b, e - 1, m);
      CongMul(a, b, Pow(a, e - 1), Pow(b, e - 1), m);
    }
  }

  lemma CongMod(a: int, m: int)
    requires 0 < m
    ensures Cong(a % m, a, m) && Cong(a, a % m, m)
  {
    CongIntro(a % m, a, m, -(a / m));
    CongSym(a % m, a, m);
  }

  /** Congruent numbers have the same remainder; equal remainders mean congruent. */
  lemma CongSameMod(a: int, b: int, m: int)
    requires 0 < m
    ensures Cong(a, b, m) <==> a % m == b % m
  {
    if Cong(a, b, m) {
      var k := CongElim(a, b, m);
      assert a == (b / m + k) * m + b % m;
      DivModUnique(a, m, b / m + k, b % m);
    }
    if a % m == b % m {
      assert a == b + (a / m - b / m) * m;
      CongIntro(a, b, m, a / m - b / m);
    }
  }

  lemma CongReduced(a: int, b: int, m: int)
    requires 0 <= a < m && 0 <= b < m
    requires Cong(a, b, m)
    ensures a == b
  {
    CongSameMod(a, b, m);
  }

  ghost predicate Prime(p: int) {
    1 < p && forall d :: 1 < d < p ==> p % d != 0
  }

  /** Euclid's lemma for 0 < a < p, by descent on a: a divisor of a product with a divides b. */
  lemma {:induction false} EuclidSmall(p: int, a: int, b: int)
    requires Prime(p)
    requires 0 < a < p
    requires Cong(a * b, 0, p)
    ensures Cong(b, 0, p)
    decreases a
  {
    if a > 1 {
      var q, r := p / a, p % a;
      assert r != 0;
      assert p == q * a + r;
      CongRefl(q, p);
      CongMul(q, q, a * b, 0, p);
      CongIntro(p * b, 0, p, b);
      CongAdd(p * b, 0, q * (a * b), 0, p);
      assert p * b - q * (a * b) == r * b by {
        assert p * b == (q * a + r) * b == (q * a) * b + r * b;
        MulAssoc(q, a, b);
      }
      EuclidSmall(p, r, b);
    }
  }

  lemma Euclid(p: int, a: int, b: int)
    requires Prime(p)
    requires Cong(a * b, 0, p)
    ensures Cong(a, 0, p) || Cong(b, 0, p)
  {
    CongMod(a, p);
    if a % p != 0 {
      CongRefl(b, p);
      CongMul(a % p, a, b, b, p);
      CongTrans((a % p) * b, a * b, 0, p);
      EuclidSmall(p, a % p, b);
    }
  }

  /** A nonzero factor can be cancelled modulo a prime. */
  lemma Cancel(p: int, a: int, b: int, c: int)
    requires Prime(p)
    requires !Cong(a, 0, p)
    requires Cong(a * b, a * c, p)
    ensures Cong(b, c, p)
  {
    CongRefl(a * c, p);
    CongAdd(a * b, a * c, a * c, a * c, p);
    assert a * b - a * c == a * (b - c);
    Euclid(p, a, b - c);
    CongRefl(c, p);
    CongAdd(b - c, 0, c, c, p);
  }

  // ---- Fermat's little theorem: multiplication by a permutes the nonzero residues ----

  /** The product of the members of s between 1 and n. */
  ghost function SetProduct(s: set<int>, n: nat): int {
    if n == 0 then 1 else (if n in s then n else 1) * SetProduct(s, n - 1)
  }

  lemma {:induction false} SetProductInsert(s: set<int>, x: int, n: nat)
    requires x !in s && 1 <= x
    ensures SetProduct(s + {x}, n) == if x <= n then x * SetProduct(s, n) else SetProduct(s, n)
  {
    if n > 0 {
      SetProductInsert(s, x, n - 1);
      var f := if n in s then n else 1;
      if x == n {
        assert SetProduct(s + {x}, n) == n * SetProduct(s, n - 1);
      } else if x < n {
        MulAssoc(f, x, SetProduct(s, n - 1));
        MulAssoc(x, f, SetProduct(s, n - 1));
      }
    }
  }

  lemma {:induction false} SetProductEqual(s: set<int>, t: set<int>, n: nat)
    requires forall i :: 1 <= i <= n ==> (i in s <==> i in t)
    ensures SetProduct(s, n) == SetProduct(t, n)
  {
    if n > 0 { SetProductEqual(s, t, n - 1); }
  }

  /** The residues a*1, ..., a*k modulo p. */
  ghost function Multiples(a: int, k: nat, p: int): set<int>
    requires 0 < p
  {
    if k == 0 then {} else Multiples(a, k - 1, p) + {(a * k) % p}
  }

  lemma {:induction false} MultipleOf(a: int, k: nat, p: int, x: int) returns (i: int)
    requires 0 < p && x in Multiples(a, k, p)
    ensures 1 <= i <= k && (a * i) % p == x
  {
    if x == (a * k) % p { i := k; } else { i := MultipleOf(a, k - 1, p, x); }
  }

  /** The nonzero residues 1, ..., n-1. */
  ghost function Residues(n: nat): (r: set<int>)
    ensures forall i :: i in r <==> 1 <= i < n
    ensures |r| == if n == 0 then 0 else n - 1
  {
    if n <= 1 then {} else Residues(n - 1) + {n - 1}
  }

  ghost function Factorial(k: nat): int {
    if k == 0 then 1 else k * Factorial(k - 1)
  }

  lemma {:induction false} FactorialIsSetProduct(s: set<int>, n: nat)
    requires forall i :: 1 <= i <= n ==> i in s
    ensures SetProduct(s, n) == Factorial(n)
  {
    if n > 0 { FactorialIsSetProduct(s, n - 1); }
  }

  lemma {:induction false} FactorialNonzero(p: int, k: nat)
    requires Prime(p)
    requires k < p
    ensures !Cong(Factorial(k), 0, p)
  {
    if k == 0 {
      CongSameMod(1, 0, p);
      DivModUnique(1, p, 0, 1);
    } else {
      FactorialNonzero(p, k - 1);
      if Cong(k * Factorial(k - 1), 0, p) {
        Euclid(p, k, Factorial(k - 1));
        CongReduced(k, 0, p);
      }
    }
  }

  lemma MultiplesFresh(a: int, k: nat, p: int)
    requires Prime(p) && !Cong(a, 0, p)
    requires 1 <= k < p
    ensures (a * k) % p !in Multiples(a, k - 1, p)
    ensures 1 <= (a * k) % p
  {
    if (a * k) % p in Multiples(a, k - 1, p) {
      var i := MultipleOf(a, k - 1, p, (a * k) % p);
      CongSameMod(a * i, a * k, p);
      Cancel(p, a, i, k);
      CongReduced(i, k, p);
    }
    if (a * k) % p == 0 {
      Euclid(p, a, k);
      CongReduced(k, 0, p);
    }
  }

  lemma {:induction false} MultiplesCount(a: int, k: nat, p: int)
    requires Prime(p) && !Cong(a, 0, p)
    requires k < p
    ensures |Multiples(a, k, p)| == k
    ensures Multiples(a, k, p) <= Residues(p)
  {
    hide Cong, Prime;
    if k > 0 {
      MultiplesCount(a, k - 1, p);
      MultiplesFresh(a, k, p);
      ModBelow(a * k, p);
    }
  }

  lemma ModBelow(x: int, p: int)
    requires Prime(p)
    ensures 0 < p && 0 <= x % p < p
  {}

  lemma MultiplesNext(a: int, k: nat, p: int)
    requires 0 < p && 0 < k
    ensures Multiples(a, k, p) == Multiples(a, k - 1, p) + {(a * k) % p}
  {}

  lemma {:induction false} MultiplesStep(a: int, k: nat, p: int)
    requires Prime(p) && !Cong(a, 0, p)
    requires k < p
    ensures Cong(SetProduct(Multiples(a, k, p), p - 1), Pow(a, k) * Factorial(k), p)
    decreases k
  {
    if k == 0 {
      FactorialEmpty(Multiples(a, 0, p), p - 1);
      CongRefl(1, p);
    } else {
      MultiplesStep(a, k - 1, p);
      MultiplesFresh(a, k, p);
      MultiplesNext(a, k, p);
      ModBelow(a * k, p);
      hide Multiples, SetProduct, Cong, Prime, Factorial, Pow;
      var x, s := (a * k) % p, Multiples(a, k - 1, p);
      SetProductInsert(s, x, p - 1);
      CongMod(a * k, p);
      NextMultiple(a, k, x, SetProduct(s, p - 1), p);
    }
  }

  lemma NextMultiple(a: int, k: nat, x: int, product: int, p: int)
    requires 0 < k && p > 0 && Cong(x, a * k, p) && Cong(product, Pow(a, k - 1) * Factorial(k - 1), p)
    ensures Cong(x * product, Pow(a, k) * Factorial(k), p)
  {
    hide Cong;
    CongMul(x, a * k, product, Pow(a, k - 1) * Factorial(k - 1), p);
    MulShuffle(a, k, Pow(a, k - 1), Factorial(k - 1));
  }

  lemma {:induction false} FactorialEmpty(s: set<int>, n: nat)
    requires s == {}
    ensures SetProduct(s, n) == 1
  {
    if n > 0 { FactorialEmpty(s, n - 1); }
  }

  /** A subset as large as the whole set is the whole set. */
  lemma SubsetFull<T>(s: set<T>, t: set<T>)
    requires s <= t && |s| == |t|
    ensures s == t
  {
    if s != t {
      var x :| x in t && x !in s;
      assert s <= t - {x};
      SubsetSize(s, t - {x});
    }
  }

  lemma {:induction false} SubsetSize<T>(s: set<T>, t: set<T>)
    requires s <= t
    ensures |s| <= |t|
  {
    if s != {} {
      var x :| x in s;
      SubsetSize(s - {x}, t - {x});
    }
  }

  lemma Fermat(p: int, a: int)
    requires Prime(p) && !Cong(a, 0, p)
    ensures Cong(Pow(a, p - 1), 1, p)
  {
    var s, all := Multiples(a, p - 1, p), Residues(p);
    MultiplesStep(a, p - 1, p);
    MultiplesCount(a, p - 1, p);
    SubsetFull(s, all);
    hide Multiples, SetProduct, Cong, Prime, Factorial, Pow;
    FactorialIsSetProduct(s, p - 1);
    FactorialNonzero(p, p - 1);
    CancelFactorial(p, Factorial(p - 1), Pow(a, p - 1));
  }

  lemma CancelFactorial(p: int, f: int, power: int)
    requires Prime(p) && !Cong(f, 0, p) && Cong(f, power * f, p)
    ensures Cong(power, 1, p)
  {
    assert p > 0;
    hide Prime, Cong;
    CongSym(f, power * f, p);
    assert power * f == f * power && f == f * 1;
    Cancel(p, f, power, 1);
  }

  /** The power p-2 is an inverse. */
  lemma FermatInverse(p: int, a: int)
    requires Prime(p) && !Cong(a, 0, p)
    ensures Cong(a * Pow(a, p - 2), 1, p)
  {
    Fermat(p, a);
  }

  /** For p = 3 (mod 4), the power (p+1)/4 of c squares to c exactly when c is a square. */
  lemma SquareRoot(p: int, c: int)
    requires Prime(p) && p % 4 == 3
    ensures var y := Pow(c, (p + 1) / 4);
            Cong(y * y, c, p) <==> exists z :: Cong(z * z, c, p)
  {
    var e := (p + 1) / 4;
    var y := Pow(c, e);
    if z :| Cong(z * z, c, p) {
      CongSym(z * z, c, p);
      PowAdd(c, e, e);
      CongPow(c, z * z, e + e, p);
      PowBase(z, z, e + e);
      PowAdd(z, e + e, e + e);
      assert 4 * e == p + 1;
      assert Cong(y * y, Pow(z, p + 1), p);
      assert Pow(z, p + 1) == z * Pow(z, p) == z * (z * Pow(z, p - 1));
      var w := Pow(z, p - 1);
      assert z * (z * w) == (z * z) * w;
      if Cong(z, 0, p) {
        CongMul(z, 0, z, 0, p);
        CongRefl(w, p);
        CongMul(z * z, 0, w, w, p);
        CongTrans(y * y, (z * z) * w, 0, p);
        CongTrans(c, z * z, 0, p);
        CongSym(c, 0, p);
        CongTrans(y * y, 0, c, p);
      } else {
        Fermat(p, z);
        CongRefl(z * z, p);
        CongMul(z * z, z * z, w, 1, p);
        CongTrans(y * y, (z * z) * w, z * z, p);
        CongTrans(y * y, z * z, c, p);
      }
    }
  }
}
