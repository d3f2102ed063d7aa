/** Greatest common divisors, primes, Fermat's little theorem and the Chinese remainder theorem. */
module Primes {
  import opened Congruence

  // ---------- greatest common divisor (the `gcd` of num-integer) ----------

  function Gcd(a: nat, b: nat): nat
    decreases b
  {
    if b == 0 then a else Gcd(b, a % b)
  }

  lemma {:induction false} GcdDivides(a: nat, b: nat)
    requires a > 0 || b > 0
    ensures Gcd(a, b) > 0 && Divides(Gcd(a, b), a) && Divides(Gcd(a, b), b)
    decreases b
  {
    if b == 0 {
      DividesIntro(a, a, 1);
    } else {
      GcdDivides(b, a % b);
      DividesCombination(Gcd(a, b), b, a % b, a / b, 1);
      assert a == (a / b) * b + 1 * (a % b);
    }
  }

  lemma {:induction false} Bezout(a: nat, b: nat) returns (x: int, y: int)
    ensures a * x + b * y == Gcd(a, b)
    decreases b
  {
    if b == 0 {
      x, y := 1, 0;
    } else {
      var u, v := Bezout(b, a % b);
      x, y := v, u - (a / b) * v;
      EuclidStep(a, b, a / b, a % b, u, v);
    }
  }

  lemma EuclidStep(a: int, b: int, q: int, r: int, u: int, v: int)
    requires a == b * q + r
    ensures a * v + b * (u - q * v) == b * u + r * v
  {
  }

  lemma GcdGreatest(a: nat, b: nat, d: int)
    requires d > 0 && Divides(d, a) && Divides(d, b)
    ensures Divides(d, Gcd(a, b))
  {
    var x, y := Bezout(a, b);
    DividesCombination(d, a, b, x, y);
    assert x * a + y * b == a * x + b * y;
  }

  // ---------- primes ----------

  ghost predicate Prime(p: int) {
    p >= 2 && forall d: int :: 1 < d < p ==> !Divides(d, p)
  }

  lemma PrimeDivisor(p: int, d: int)
    requires Prime(p) && d > 0 && Divides(d, p)
    ensures d == 1 || d == p
  {
  }

  /** Every number a prime does not divide is a unit modulo it. */
  lemma PrimeInverse(p: int, a: int) returns (y: int)
    requires Prime(p) && !Divides(p, a)
    ensures Cong(a * y, 1, p)
  {
    var r := a % p;
    var g := Gcd(p, r);
    GcdDivides(p, r);
    PrimeDivisor(p, g);
    if g == p {
      DividesBound(p, r);
    }
    var x, v := Bezout(p, r);
    y := v;
    DividesIntro(p, r * y - 1, -x);
    CongMod(a, p);
    CongMul(a, r, y, y, p);
    CongTrans(a * y, r * y, 1, p);
  }

  lemma EuclidLemma(p: int, a: int, b: int)
    requires Prime(p) && Divides(p, a * b)
    ensures Divides(p, a) || Divides(p, b)
  {
    if !Divides(p, a) {
      var y := PrimeInverse(p, a);
      DividesCombination(p, a * b, a * y - 1, y, -b);
      assert y * (a * b) + -b * (a * y - 1) == b;
    }
  }

  /** Cancelling a unit in a congruence modulo a prime. */
  lemma CongCancel(c: int, a: int, b: int, p: int)
    requires Prime(p) && !Divides(p, c) && Cong(c * a, c * b, p)
    ensures Cong(a, b, p)
  {
    assert c * a - c * b == c * (a - b);
    EuclidLemma(p, c, a - b);
  }

  /** The square roots of 1 modulo a prime are 1 and -1. */
  lemma RootsOfOne(p: int, x: int)
    requires Prime(p) && Cong(x * x, 1, p)
    ensures Cong(x, 1, p) || Cong(x, -1, p)
  {
    assert x * x - 1 == (x - 1) * (x + 1);
    EuclidLemma(p, x - 1, x + 1);
  }

  lemma OneIsNotMinusOne(p: int)
    requires p > 2
    ensures !Cong(1, -1, p) && !Cong(-1, 1, p)
  {
  }

  // ---------- products over finite sets ----------

  ghost function Pick<T>(s: set<T>): (x: T)
    requires s != {}
    ensures x in s
  {
    var x :| x in s; x
  }

  ghost function SetProd(s: set<int>): int {
    if s == {} then 1 else Pick(s) * SetProd(s - {Pick(s)})
  }

  lemma {:induction false} SetProdRemove(s: set<int>, x: int)
    requires x in s
    ensures SetProd(s) == x * SetProd(s - {x})
    decreases |s|
  {
    var y := Pick(s);
    if x != y {
      var rest := SetProd(s - {x} - {y});
      assert s - {y} - {x} == s - {x} - {y};
      assert SetProd(s - {y}) == x * rest by { SetProdRemove(s - {y}, x); }
      assert SetProd(s - {x}) == y * rest by { SetProdRemove(s - {x}, y); }
      assert y * (x * rest) == x * (y * rest);
    }
  }

  lemma SetProdAdd(s: set<int>, x: int)
    requires x !in s
    ensures SetProd(s + {x}) == x * SetProd(s)
  {
    SetProdRemove(s + {x}, x);
    assert s + {x} - {x} == s;
  }

  /** The set {1, ..., n}. */
  ghost function Range(n: nat): (s: set<int>)
    ensures |s| == n
    ensures forall i :: i in s <==> 1 <= i <= n
  {
    if n == 0 then {} else Range(n - 1) + {n}
  }

  lemma SubsetSameSize(s: set<int>, t: set<int>)
    requires s <= t && |s| == |t|
    ensures s == t
  {
    assert t == s + (t - s);
  }

  /** The residues of a, 2a, ..., na. */
  ghost function Multiples(a: int, p: int, n: nat): set<int>
    requires p > 0
  {
    if n == 0 then {} else Multiples(a, p, n - 1) + {(a * n) % p}
  }

  lemma {:induction false} MultiplesMember(a: int, p: int, n: nat, x: int) returns (i: int)
    requires p > 0 && x in Multiples(a, p, n)
    ensures 1 <= i <= n && x == (a * i) % p
  {
    if x == (a * n) % p {
      i := n;
    } else {
      i := MultiplesMember(a, p, n - 1, x);
    }
  }

  /** The residues of the first p - 1 multiples of a unit are distinct and non-zero. */
  lemma MultiplesFresh(a: int, p: int, n: nat)
    requires Prime(p) && !Divides(p, a) && 1 <= n < p
    ensures (a * n) % p !in Multiples(a, p, n - 1)
    ensures 1 <= (a * n) % p < p
  {
    var x := (a * n) % p;
    if x in Multiples(a, p, n - 1) {
      var i := MultiplesMember(a, p, n - 1, x);
      CongIffMod(a * i, a * n, p);
      CongCancel(a, i, n, p);
      CongUnique(i, n, p);
    }
    if x == 0 {
      EuclidLemma(p, a, n);
      DividesBound(p, n);
    }
  }

  lemma {:induction false} MultiplesInRange(a: int, p: int, n: nat)
    requires Prime(p) && !Divides(p, a) && n < p
    ensures Multiples(a, p, n) <= Range(p - 1) && |Multiples(a, p, n)| == n
  {
    hide Divides;
    if n > 0 {
      MultiplesInRange(a, p, n - 1);
      MultiplesFresh(a, p, n);
    }
  }

  lemma {:induction false} MultiplesProduct(a: int, p: int, n: nat)
    requires Prime(p) && !Divides(p, a) && n < p
    ensures Cong(SetProd(Multiples(a, p, n)), Pow(a, n) * SetProd(Range(n)), p)
  {
    if n == 0 {
      CongRefl(1, p);
    } else {
      var before, range := SetProd(Multiples(a, p, n - 1)), SetProd(Range(n - 1));
      MultiplesProduct(a, p, n - 1);
      ProductStep(a, p, n, before, Pow(a, n - 1), range);
      RangeProduct(n);
      MultiplesFresh(a, p, n);
      SetProdAdd(Multiples(a, p, n - 1), (a * n) % p);
    }
  }

  lemma RangeProduct(n: nat)
    requires n > 0
    ensures SetProd(Range(n)) == n * SetProd(Range(n - 1))
  {
    SetProdAdd(Range(n - 1), n);
  }

  lemma ProductStep(a: int, p: int, n: int, before: int, power: int, range: int)
    requires p > 0 && Cong(before, power * range, p)
    ensures Cong(((a * n) % p) * before, (a * power) * (n * range), p)
  {
    CongMod(a * n, p);
    CongMul((a * n) % p, a * n, before, power * range, p);
    assert (a * n) * (power * range) == (a * power) * (n * range);
  }

  lemma {:induction false} FactorialUnit(p: int, n: nat)
    requires Prime(p) && n < p
    ensures !Divides(p, SetProd(Range(n)))
  {
    if n == 0 {
    } else {
      hide Prime, Divides;
      FactorialUnit(p, n - 1);
      SetProdAdd(Range(n - 1), n);
      if Divides(p, SetProd(Range(n))) {
        EuclidLemma(p, n, SetProd(Range(n - 1)));
        DividesBound(p, n);
      }
    }
  }

  lemma CongCancelFactor(f: int, e: int, p: int)
    requires Prime(p) && !Divides(p, f) && Cong(f, e * f, p)
    ensures Cong(e, 1, p)
  {
    CongSym(f, e * f, p);
    assert e * f - f == f * e - f * 1;
    CongCancel(f, e, 1, p);
  }

  /** Fermat's little theorem. */
  lemma Fermat(p: int, a: int)
    requires Prime(p) && !Divides(p, a)
    ensures Cong(Pow(a, p - 1), 1, p)
  {
    hide Divides;
    FermatProduct(p, a);
    FactorialUnit(p, p - 1);
    CongCancelFactor(SetProd(Range(p - 1)), Pow(a, p - 1), p);
  }

  lemma FermatProduct(p: int, a: int)
    requires Prime(p) && !Divides(p, a)
    ensures Cong(SetProd(Range(p - 1)), Pow(a, p - 1) * SetProd(Range(p - 1)), p)
  {
    hide Divides, SetProd, Pow;
    MultiplesProduct(a, p, p - 1);
    MultiplesInRange(a, p, p - 1);
    SubsetSameSize(Multiples(a, p, p - 1), Range(p - 1));
  }

  lemma FermatMultiple(p: int, a: int, k: nat)
    requires Prime(p) && !Divides(p, a) && Divides(p - 1, k)
    ensures Cong(Pow(a, k), 1, p)
  {
    Fermat(p, a);
    PowOrder(a, p - 1, k, p);
  }

  // ---------- two distinct primes ----------

  ghost predicate DistinctOddPrimes(p: int, q: int) {
    Prime(p) && Prime(q) && p != q && p > 2 && q > 2
  }

  lemma ChineseDivides(p: int, q: int, x: int)
    requires Prime(p) && Prime(q) && p != q && Divides(p, x) && Divides(q, x)
    ensures p * q > 0 && Divides(p * q, x)
  {
    var u := x / p;
    assert x == p * u;
    EuclidLemma(q, p, u);
    if Divides(q, p) {
      PrimeDivisor(p, q);
    }
    DividesIntro(p, p, 1);
    DividesProduct(p, q, p, u);
  }

  lemma ChineseUnique(p: int, q: int, a: int, b: int)
    requires Prime(p) && Prime(q) && p != q && Cong(a, b, p) && Cong(a, b, q)
    ensures p * q > 0 && Cong(a, b, p * q)
  {
    ChineseDivides(p, q, a - b);
  }

  lemma ProductDivisors(p: int, q: int)
    requires p > 0 && q > 0
    ensures p * q > 0 && Divides(p, p * q) && Divides(q, p * q)
  {
    DividesIntro(p, p * q, q);
    DividesIntro(q, p * q, p);
  }

  lemma ChineseExists(p: int, q: int, r: int, s: int) returns (g: int)
    requires Prime(p) && Prime(q) && p != q
    ensures p * q > 0 && 0 <= g < p * q && Cong(g, r, p) && Cong(g, s, q)
  {
    if Divides(q, p) {
      PrimeDivisor(p, q);
    }
    var y := PrimeInverse(q, p);
    var h := r + p * (y * (s - r));
    DividesIntro(p, h - r, y * (s - r));
    DividesMultiple(q, p * y - 1, s - r);
    assert h - s == (s - r) * (p * y - 1);
    ProductDivisors(p, q);
    g := h % (p * q);
    CongMod(h, p * q);
    CongDivisor(g, h, p, p * q);
    CongDivisor(g, h, q, p * q);
    CongTrans(g, h, r, p);
    CongTrans(g, h, s, q);
  }

  /** A product of two primes splits in only one way. */
  lemma SemiprimeFactors(p: int, q: int, x: int, y: int)
    requires Prime(p) && Prime(q) && x * y == p * q && 1 < x && 1 < y
    ensures (x == p && y == q) || (x == q && y == p)
  {
    ProductDivisors(p, q);
    EuclidLemma(p, x, y);
    if Divides(p, x) {
      SemiprimeSplit(p, q, x, y);
    } else {
      assert y * x == p * q;
      SemiprimeSplit(p, q, y, x);
    }
  }

  lemma SemiprimeSplit(p: int, q: int, x: int, y: int)
    requires Prime(p) && Prime(q) && x * y == p * q && 1 < x && 1 < y && Divides(p, x)
    ensures x == p && y == q
  {
    var u := x / p;
    assert x == p * u;
    assert p * (u * y) == p * q;
    assert u * y == q;
    DividesIntro(y, q, u);
    PrimeDivisor(q, y);
    assert u == 1;
  }

  // ---------- quadratic non-residues ----------

  /** The monic polynomial with the given lower coefficients, highest first, by Horner's rule. */
  ghost function Monic(cs: seq<int>, x: int): int {
    if cs == [] then 1 else Monic(cs[..|cs| - 1], x) * x + cs[|cs| - 1]
  }

  /** Synthetic division of a monic polynomial by x - r: the quotient's lower coefficients. */
  ghost function Quotient(cs: seq<int>, r: int): seq<int>
    requires cs != []
    ensures |Quotient(cs, r)| == |cs| - 1
  {
    if |cs| == 1 then [] else Quotient(cs[..|cs| - 1], r) + [Monic(cs[..|cs| - 1], r)]
  }

  lemma HornerStep(m: int, mr: int, mq: int, x: int, r: int)
    requires m - mr == (x - r) * mq
    ensures m * x - mr * r == (x - r) * (mq * x + mr)
  {
  }

  lemma {:induction false} FactorTheorem(cs: seq<int>, r: int, x: int)
    requires cs != []
    ensures Monic(cs, x) - Monic(cs, r) == (x - r) * Monic(Quotient(cs, r), x)
  {
    var init := cs[..|cs| - 1];
    if |cs| == 1 {
      assert init == [];
    } else {
      FactorTheorem(init, r, x);
      var q := Quotient(cs, r);
      assert q[..|q| - 1] == Quotient(init, r);
      var m, mr, mq := Monic(init, x), Monic(init, r), Monic(Quotient(init, r), x);
      assert Monic(q, x) == mq * x + mr;
      HornerStep(m, mr, mq, x, r);
    }
  }

  /** A second root is a root of the quotient by the first. */
  lemma OtherRoot(cs: seq<int>, p: int, r: int, x: int)
    requires Prime(p) && cs != [] && 0 <= r < p && 0 <= x < p && x != r
    requires Divides(p, Monic(cs, r)) && Divides(p, Monic(cs, x))
    ensures Divides(p, Monic(Quotient(cs, r), x))
  {
    hide Prime, Divides, Monic, Quotient;
    FactorTheorem(cs, r, x);
    DividesCombination(p, Monic(cs, x), Monic(cs, r), 1, -1);
    EuclidLemma(p, x - r, Monic(Quotient(cs, r), x));
    if Divides(p, x - r) {
      CongUnique(x, r, p);
    }
  }

  /** A monic polynomial of degree d has at most d roots modulo a prime (Lagrange). */
  lemma {:induction false} RootBound(cs: seq<int>, p: int, roots: set<int>)
    requires Prime(p)
    requires forall x :: x in roots ==> 0 <= x < p && Divides(p, Monic(cs, x))
    ensures |roots| <= |cs|
    decreases |cs|
  {
    hide Divides, Quotient;
    if roots != {} {
      var r := Pick(roots);
      if cs == [] {
        DividesBound(p, 1);
      } else {
        forall x | x in roots - {r}
          ensures Divides(p, Monic(Quotient(cs, r), x))
        {
          OtherRoot(cs, p, r, x);
        }
        RootBound(Quotient(cs, r), p, roots - {r});
      }
    }
  }

  lemma {:induction false} MonicZeros(n: nat, x: int)
    ensures Monic(seq(n, _ => 0), x) == Pow(x, n)
  {
    if n > 0 {
      MonicZeros(n - 1, x);
      assert seq(n, _ => 0)[..n - 1] == seq(n - 1, _ => 0);
    }
  }

  /** The polynomial x^m - 1 has a non-root among the units modulo p when m < p - 1. */
  lemma NonRootExists(p: int, m: nat) returns (h: int)
    requires Prime(p) && 0 < m < p - 1
    ensures 1 <= h < p && !Divides(p, Pow(h, m) - 1)
  {
    var cs := seq(m - 1, _ => 0) + [-1];
    var roots := Range(p - 1);
    if forall x :: x in roots ==> Divides(p, Pow(x, m) - 1) {
      forall x | x in roots
        ensures Divides(p, Monic(cs, x))
      {
        MonicZeros(m - 1, x);
        assert cs[..|cs| - 1] == seq(m - 1, _ => 0);
        assert x * Pow(x, m - 1) == Pow(x, m - 1) * x;
      }
      RootBound(cs, p, roots);
    }
    h :| h in roots && !Divides(p, Pow(h, m) - 1);
  }

  /** Some h has h^((p-1)/2) congruent to -1 modulo an odd prime p. */
  lemma NonResidueExists(p: int) returns (h: int)
    requires Prime(p) && p > 2 && p % 2 == 1
    ensures !Divides(p, h) && Cong(Pow(h, (p - 1) / 2), -1, p)
  {
    hide Divides, Prime, Pow;
    var m := (p - 1) / 2;
    h := NonRootExists(p, m);
    UnitBelow(p, h);
    Fermat(p, h);
    PowAdd(h, m, m);
    RootsOfOne(p, Pow(h, m));
  }

  lemma UnitBelow(p: int, h: int)
    requires 1 <= h < p
    ensures !Divides(p, h)
  {
  }
}
