/** Divisibility and congruence over the integers, stated with `%` and proved with explicit quotients. */
module Congruence {

  predicate Divides(d: int, x: int)
    requires d > 0
  {
    x % d == 0
  }

  predicate Cong(a: int, b: int, m: int)
    requires m > 0
  {
    Divides(m, a - b)
  }

  /** The only multiple of m strictly between -m and m is zero. */
  lemma SmallMultiple(m: int, k: int)
    requires m > 0 && -m < m * k < m
    ensures k == 0
  {
  }

  lemma QuotientUnique(x: int, m: int, q: int, r: int)
    requires m > 0 && 0 <= r < m && x == m * q + r
    ensures x / m == q && x % m == r
  {
    var k := x / m - q;
    assert m * k == r - x % m;
    SmallMultiple(m, k);
  }

  lemma DividesIntro(d: int, x: int, k: int)
    requires d > 0 && x == d * k
    ensures Divides(d, x) && x / d == k
  {
    QuotientUnique(x, d, k, 0);
  }

  lemma DividesElim(d: int, x: int)
    requires d > 0 && Divides(d, x)
    ensures x == d * (x / d)
  {
  }

  lemma DividesCombination(d: int, x: int, y: int, a: int, b: int)
    requires d > 0 && Divides(d, x) && Divides(d, y)
    ensures Divides(d, a * x + b * y)
  {
    var u, v := x / d, y / d;
    assert a * x + b * y == d * (a * u + b * v) by {
      assert x == d * u && y == d * v;
      assert a * (d * u) == d * (a * u) && b * (d * v) == d * (b * v);
    }
    DividesIntro(d, a * x + b * y, a * u + b * v);
  }

  lemma DividesMultiple(d: int, x: int, a: int)
    requires d > 0 && Divides(d, x)
    ensures Divides(d, a * x) && Divides(d, x * a)
  {
    DividesCombination(d, x, 0, a, 0);
  }

  lemma DividesTransitive(d: int, e: int, x: int)
    requires d > 0 && e > 0 && Divides(d, e) && Divides(e, x)
    ensures Divides(d, x)
  {
    hide Divides;
    DividesElim(e, x);
    DividesMultiple(d, e, x / e);
  }

  lemma DividesBound(d: int, x: int)
    requires d > 0 && x > 0 && Divides(d, x)
    ensures d <= x
  {
  }

  lemma DividesProduct(d: int, e: int, x: int, y: int)
    requires d > 0 && e > 0 && Divides(d, x) && Divides(e, y)
    ensures d * e > 0 && Divides(d * e, x * y)
  {
    var u, v := x / d, y / e;
    assert x * y == (d * e) * (u * v) by {
      assert x == d * u && y == e * v;
      assert (d * u) * (e * v) == (d * e) * (u * v);
    }
    DividesIntro(d * e, x * y, u * v);
  }

  lemma CongRefl(a: int, m: int)
    requires m > 0
    ensures Cong(a, a, m)
  {
  }

  lemma CongSym(a: int, b: int, m: int)
    requires m > 0 && Cong(a, b, m)
    ensures Cong(b, a, m)
  {
    DividesCombination(m, a - b, 0, -1, 0);
  }

  lemma CongTrans(a: int, b: int, c: int, m: int)
    requires m > 0 && Cong(a, b, m) && Cong(b, c, m)
    ensures Cong(a, c, m)
  {
    DividesCombination(m, a - b, b - c, 1, 1);
  }

  lemma CongAdd(a: int, b: int, c: int, d: int, m: int)
    requires m > 0 && Cong(a, b, m) && Cong(c, d, m)
    ensures Cong(a + c, b + d, m) && Cong(a - c, b - d, m)
  {
    DividesCombination(m, a - b, c - d, 1, 1);
    DividesCombination(m, a - b, c - d, 1, -1);
    assert (a + c) - (b + d) == 1 * (a - b) + 1 * (c - d);
    assert (a - c) - (b - d) == 1 * (a - b) + -1 * (c - d);
  }

  lemma CongMul(a: int, b: int, c: int, d: int, m: int)
    requires m > 0 && Cong(a, b, m) && Cong(c, d, m)
    ensures Cong(a * c, b * d, m)
  {
    hide Divides;
    DividesCombination(m, a - b, c - d, c, b);
    assert a * c - b * d == c * (a - b) + b * (c - d);
  }

  lemma CongMod(a: int, m: int)
    requires m > 0
    ensures Cong(a % m, a, m) && Cong(a, a % m, m)
  {
    var q, r := a / m, a % m;
    assert r - a == m * (-q) && a - r == m * q;
    DividesIntro(m, r - a, -q);
    DividesIntro(m, a - r, q);
  }

  /** Congruent representatives in [0, m) are equal. */
  lemma CongUnique(a: int, b: int, m: int)
    requires m > 0 && 0 <= a < m && 0 <= b < m && Cong(a, b, m)
    ensures a == b
  {
    DividesElim(m, a - b);
    SmallMultiple(m, (a - b) / m);
  }

  lemma CongIffMod(a: int, b: int, m: int)
    requires m > 0
    ensures Cong(a, b, m) <==> a % m == b % m
  {
    CongMod(a, m);
    CongMod(b, m);
    if Cong(a, b, m) {
      CongTrans(a % m, a, b, m);
      CongTrans(a % m, b, b % m, m);
      CongUnique(a % m, b % m, m);
    }
    if a % m == b % m {
      CongTrans(a, a % m, b, m);
    }
  }

  /** A congruence modulo n holds modulo every divisor of n. */
  lemma CongDivisor(a: int, b: int, d: int, n: int)
    requires d > 0 && n > 0 && Divides(d, n) && Cong(a, b, n)
    ensures Cong(a, b, d)
  {
    DividesTransitive(d, n, a - b);
  }

  // ---------- powers ----------

  function Pow(b: int, e: nat): int
  {
    if e == 0 then 1 else b * Pow(b, e - 1)
  }

  /** The library's `modpow`: the residue of the power. */
  function ModPow(b: int, e: nat, m: int): (r: int)
    requires m > 0
    ensures 0 <= r < m
  {
    Pow(b, e) % m
  }

  lemma {:induction false} PowAdd(b: int, x: nat, y: nat)
    ensures Pow(b, x + y) == Pow(b, x) * Pow(b, y)
  {
    if x == 0 {
    } else {
      PowAdd(b, x - 1, y);
      assert b * (Pow(b, x - 1) * Pow(b, y)) == (b * Pow(b, x - 1)) * Pow(b, y);
    }
  }

  lemma {:induction false} PowMul(b: int, x: nat, y: nat)
    ensures x * y >= 0 && Pow(b, x * y) == Pow(Pow(b, x), y)
  {
    if y == 0 {
      assert x * y == 0;
    } else {
      PowMul(b, x, y - 1);
      assert x * y == x + x * (y - 1);
      PowAdd(b, x, x * (y - 1));
    }
  }

  lemma {:induction false} PowOne(e: nat)
    ensures Pow(1, e) == 1
  {
    if e == 0 {
    } else {
      PowOne(e - 1);
    }
  }

  lemma {:induction false} PowMinusOne(e: nat)
    ensures Pow(-1, e) == if e % 2 == 0 then 1 else -1
  {
    if e == 0 {
    } else {
      PowMinusOne(e - 1);
    }
  }

  lemma {:induction false} PowCong(a: int, b: int, e: nat, m: int)
    requires m > 0 && Cong(a, b, m)
    ensures Cong(Pow(a, e), Pow(b, e), m)
  {
    if e == 0 {
    } else {
      PowCong(a, b, e - 1, m);
      CongMul(a, b, Pow(a, e - 1), Pow(b, e - 1), m);
    }
  }

  /** Raising to a multiple of the order gives 1. */
  lemma PowOrder(b: int, x: nat, k: nat, m: int)
    requires m > 0 && x > 0 && Cong(Pow(b, x), 1, m) && Divides(x, k)
    ensures Cong(Pow(b, k), 1, m)
  {
    var q: nat := k / x;
    assert k == x * q;
    PowMul(b, x, q);
    PowCong(Pow(b, x), 1, q, m);
    PowOne(q);
  }
}
