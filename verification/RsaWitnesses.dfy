/** How many witnesses of the prime recovery in src/crypto.rs succeed: at least half of the residues coprime to n. */
module RsaWitnesses {
  import opened Congruence
  import opened Primes
  import opened RsaMath
  import opened RsaRecovery

  // ---------- counting ----------

  /** The residues coprime to n. */
  ghost function Units(n: nat): set<int> {
    set g: int | 0 < g < n && Gcd(g, n) == 1
  }

  /** Those on which a trial for d * e - 1 == r * 2^t returns a factor. */
  ghost function Factoring(n: nat, r: nat, t: nat): set<int>
    requires n > 0
  {
    set g: int | g in Units(n) && RunTrial(n, r, t, g).Factor?
  }

  /** An injection cannot go from a larger set into a smaller one. */
  lemma {:induction false} InjectionBound(a: set<int>, b: set<int>, f: int -> int)
    requires forall x :: x in a ==> f(x) in b
    requires forall x, y :: x in a && y in a && f(x) == f(y) ==> x == y
    ensures |a| <= |b|
    decreases |a|
  {
    if a != {} {
      var x := Pick(a);
      InjectionBound(a - {x}, b - {f(x)}, f);
    }
  }

  // ---------- powers along a trial ----------

  lemma {:induction false} PowProduct(a: int, b: int, e: nat)
    ensures Pow(a * b, e) == Pow(a, e) * Pow(b, e)
  {
    if e > 0 {
      PowProduct(a, b, e - 1);
      Interchange(a, b, Pow(a, e - 1), Pow(b, e - 1));
    }
  }

  lemma Interchange(a: int, b: int, x: int, y: int)
    ensures (a * b) * (x * y) == (a * x) * (b * y)
  {
    assert (a * b) * (x * y) == a * (b * (x * y));
    assert b * (x * y) == x * (b * y);
    assert a * (x * (b * y)) == (a * x) * (b * y);
  }

  /** Once a power in the chain is 1, all later ones are. */
  lemma {:induction false} StaysOne(n: nat, g: int, r: nat, i: nat, j: nat)
    requires n > 2 && i <= j && ModPow(g, Exponent(r, i), n) == 1
    ensures ModPow(g, Exponent(r, j), n) == 1
    decreases j
  {
    hide ModPow;
    if i < j {
      StaysOne(n, g, r, i, j - 1);
      SquareStep(g, Exponent(r, j - 1), n);
      OneSquared(n);
    }
  }

  lemma OneSquared(n: nat)
    requires n > 2
    ensures ModPow(1, 2, n) == 1
  {
    PowTwo(1);
  }

  /** The power after n - 1 is 1. */
  lemma OneAfterMinusOne(n: nat, g: int, r: nat, i: nat)
    requires n > 2 && ModPow(g, Exponent(r, i), n) == n - 1
    ensures ModPow(g, Exponent(r, i + 1), n) == 1
  {
    SquareStep(g, Exponent(r, i), n);
    PowTwo(n - 1);
    assert (n - 1) * (n - 1) == n * (n - 2) + 1;
    QuotientUnique((n - 1) * (n - 1), n, n - 2, 1);
  }

  /** A run that stops at n - 1 met it as some power of the chain. */
  lemma {:induction false} MinusOneMet(n: nat, g: int, r: nat, j: nat, s: nat) returns (i: nat)
    requires n > 2 && SquareRun(n, ModPow(g, Exponent(r, j), n), s) == MinusOne
    ensures j < i <= j + s && ModPow(g, Exponent(r, i), n) == n - 1
    decreases s
  {
    SquareStep(g, Exponent(r, j), n);
    if ModPow(g, Exponent(r, j + 1), n) == n - 1 {
      i := j + 1;
    } else {
      i := MinusOneMet(n, g, r, j + 1, s - 1);
    }
  }

  // ---------- the last level at which -1 is a power ----------

  /** v reaches n - 1 at level j. */
  predicate Reaches(n: nat, r: nat, j: nat, v: nat)
    requires n > 0
  {
    ModPow(v, Exponent(r, j), n) == n - 1
  }

  /** A level at which n - 1 is a power, and above which, up to `last`, it is none. */
  lemma {:induction false} TopLevel(n: nat, r: nat, last: nat) returns (j: nat, v: nat)
    requires n > 2 && r % 2 == 1
    ensures j <= last && Reaches(n, r, j, v)
    ensures forall i: nat, u: nat :: j < i <= last ==> !Reaches(n, r, i, u)
  {
    if last == 0 {
      MinusOneReaches(n, r);
      j, v := 0, n - 1;
    } else if u: nat :| Reaches(n, r, last, u) {
      j, v := last, u;
    } else {
      j, v := TopLevel(n, r, last - 1);
    }
  }

  lemma MinusOneReaches(n: nat, r: nat)
    requires n > 2 && r % 2 == 1
    ensures ModPow(n - 1, r, n) == n - 1
  {
    DividesIntro(n, n - 1 - -1, 1);
    PowCong(n - 1, -1, r, n);
    PowMinusOne(r);
    CongIffMod(Pow(n - 1, r), -1, n);
    QuotientUnique(-1, n, -1, n - 1);
  }

  /** g ends in the subgroup of residues whose power at level j is 1 or n - 1. */
  predicate Signed(n: nat, r: nat, j: nat, g: int)
    requires n > 0
  {
    ModPow(g, Exponent(r, j), n) == 1 || ModPow(g, Exponent(r, j), n) == n - 1
  }

  /** Every conclusive trial without a factor is on a witness of that subgroup. */
  lemma FailureIsSigned(n: nat, r: nat, t: nat, j: nat, g: nat)
    requires n > 2 && t >= 1 && j <= t - 1
    requires forall i: nat, u: nat :: j < i <= t - 1 ==> !Reaches(n, r, i, u)
    requires RunTrial(n, r, t, g).Skipped? || RunTrial(n, r, t, g).MinusOne?
    ensures Signed(n, r, j, g)
  {
    hide SquareRun, ModPow;
    if RunTrial(n, r, t, g).MinusOne? {
      var i := MinusOneMet(n, g, r, 0, t - 1);
      assert Reaches(n, r, i, g);
      SignedAfter(n, r, i, j, g);
    } else if ModPow(g, r, n) == 1 {
      StaysOne(n, g, r, 0, j);
    } else {
      SignedAfter(n, r, 0, j, g);
    }
  }

  lemma SignedAfter(n: nat, r: nat, i: nat, j: nat, g: int)
    requires n > 2 && i <= j && ModPow(g, Exponent(r, i), n) == n - 1
    ensures Signed(n, r, j, g)
  {
    hide ModPow;
    if i < j {
      OneAfterMinusOne(n, g, r, i);
      StaysOne(n, g, r, i + 1, j);
    }
  }

  // ---------- leaving the subgroup ----------

  function Twisted(n: nat, w: int, g: int): int
    requires n > 0
  {
    (w * g) % n
  }

  /** Multiplying by a w whose power is -1 modulo p and 1 modulo q leaves the subgroup. */
  lemma TwistLeaves(p: int, q: int, n: nat, m: nat, w: int, g: int)
    requires DistinctOddPrimes(p, q) && p * q == n
    requires Cong(Pow(w, m), -1, p) && Cong(Pow(w, m), 1, q)
    requires ModPow(g, m, n) == 1 || ModPow(g, m, n) == n - 1
    ensures ModPow(Twisted(n, w, g), m, n) != 1 && ModPow(Twisted(n, w, g), m, n) != n - 1
  {
    hide Divides, Prime, ModPow;
    var h := Twisted(n, w, g);
    ProductDivisors(p, q);
    PowerResidues(p, q, g, m);
    PowerResidues(p, q, h, m);
    TwistResidue(n, p, w, g, m, -1);
    TwistResidue(n, q, w, g, m, 1);
    SignClash(p, Pow(h, m), Pow(g, m));
    SignKept(q, Pow(h, m), Pow(g, m));
  }

  lemma TwistResidue(n: nat, p: int, w: int, g: int, m: nat, c: int)
    requires n > 0 && p > 0 && Divides(p, n) && Cong(Pow(w, m), c, p)
    ensures Cong(Pow(Twisted(n, w, g), m), c * Pow(g, m), p)
  {
    hide Divides;
    var h := Twisted(n, w, g);
    CongMod(w * g, n);
    CongDivisor(h, w * g, p, n);
    PowCong(h, w * g, m, p);
    PowProduct(w, g, m);
    CongRefl(Pow(g, m), p);
    CongMul(Pow(w, m), c, Pow(g, m), Pow(g, m), p);
    CongTrans(Pow(h, m), Pow(w, m) * Pow(g, m), c * Pow(g, m), p);
  }

  /** If x = -y modulo p and y is 1 (or -1), x is -1 (or 1) and not the other. */
  lemma SignClash(p: int, x: int, y: int)
    requires p > 2 && Cong(x, -1 * y, p)
    ensures Cong(y, 1, p) ==> !Cong(x, 1, p)
    ensures Cong(y, -1, p) ==> !Cong(x, -1, p)
  {
    hide Divides;
    OneIsNotMinusOne(p);
    CongRefl(-1, p);
    if Cong(y, 1, p) && Cong(x, 1, p) {
      CongMul(-1, -1, y, 1, p);
      CongTrans(x, -1 * y, -1, p);
      CongSym(x, 1, p);
      CongTrans(1, x, -1, p);
    }
    if Cong(y, -1, p) && Cong(x, -1, p) {
      CongMul(-1, -1, y, -1, p);
      CongTrans(x, -1 * y, 1, p);
      CongSym(x, -1, p);
      CongTrans(-1, x, 1, p);
    }
  }

  lemma SignKept(q: int, x: int, y: int)
    requires q > 2 && Cong(x, 1 * y, q)
    ensures Cong(y, 1, q) ==> !Cong(x, -1, q)
    ensures Cong(y, -1, q) ==> !Cong(x, 1, q)
  {
    hide Divides;
    OneIsNotMinusOne(q);
    if Cong(y, 1, q) && Cong(x, -1, q) {
      CongTrans(x, y, 1, q);
      CongSym(x, 1, q);
      CongTrans(1, x, -1, q);
    }
    if Cong(y, -1, q) && Cong(x, 1, q) {
      CongTrans(x, y, -1, q);
      CongSym(x, 1, q);
      CongTrans(1, x, -1, q);
    }
  }

  /** Multiplication by a unit permutes the units. */
  lemma TwistPermutes(p: int, q: int, n: nat, w: int, g: int, h: int)
    requires DistinctOddPrimes(p, q) && p * q == n && !Divides(p, w) && !Divides(q, w)
    requires g in Units(n) && h in Units(n)
    ensures Twisted(n, w, g) in Units(n)
    ensures Twisted(n, w, g) == Twisted(n, w, h) ==> g == h
  {
    hide Divides, Prime, Gcd;
    var x := Twisted(n, w, g);
    ProductDivisors(p, q);
    CoprimeToBoth(p, q, g);
    UnitResidue(p, n, w, g);
    UnitResidue(q, n, w, g);
    CoprimeFromBoth(p, q, x);
    assert x != 0 by { ZeroDivides(p); }
    if x == Twisted(n, w, h) {
      CongIffMod(w * g, w * h, n);
      CongDivisor(w * g, w * h, p, n);
      CongDivisor(w * g, w * h, q, n);
      CongCancel(w, g, h, p);
      CongCancel(w, g, h, q);
      ChineseUnique(p, q, g, h);
      CongUnique(g, h, n);
    }
  }

  lemma ZeroDivides(p: int)
    requires p > 0
    ensures Divides(p, 0)
  {
  }

  lemma UnitResidue(p: int, n: nat, w: int, g: int)
    requires p > 0 && Prime(p) && n > 0 && Divides(p, n) && !Divides(p, w) && !Divides(p, g)
    ensures !Divides(p, Twisted(n, w, g))
  {
    hide Divides, Prime;
    if Divides(p, w * g) {
      EuclidLemma(p, w, g);
    }
    CongMod(w * g, n);
    CongDivisor(Twisted(n, w, g), w * g, p, n);
    NotDivisible(Twisted(n, w, g), w * g, p);
  }

  /** A power congruent to 1 or -1 has a base that is not divisible. */
  lemma UnitBase(p: int, w: int, m: nat, c: int)
    requires p > 2 && m > 0 && (c == 1 || c == -1) && Cong(Pow(w, m), c, p)
    ensures !Divides(p, w)
  {
    if Divides(p, w) {
      DividesMultiple(p, w, Pow(w, m - 1));
      DividesCombination(p, Pow(w, m), Pow(w, m) - c, 1, -1);
      assert Divides(p, c);
      SmallMultiple(p, c / p);
    }
  }

  // ---------- the bound ----------

  /** A multiplier that carries every failing witness to a succeeding one. */
  lemma Multiplier(p: int, q: int, n: nat, r: nat, t: nat) returns (j: nat, w: int)
    requires DistinctOddPrimes(p, q) && n == p * q && r % 2 == 1 && t >= 1
    ensures j <= t - 1 && Exponent(r, j) > 0
    ensures forall i: nat, u: nat :: j < i <= t - 1 ==> !Reaches(n, r, i, u)
    ensures Cong(Pow(w, Exponent(r, j)), -1, p) && Cong(Pow(w, Exponent(r, j)), 1, q)
    ensures !Divides(p, w) && !Divides(q, w)
  {
    hide Divides, Prime, Exponent, ModPow;
    ProductAboveTwo(p, q);
    var v;
    j, v := TopLevel(n, r, t - 1);
    ExponentPositive(r, j);
    var m := Exponent(r, j);
    PowerResidues(p, q, v, m);
    w := ChineseExists(p, q, v, 1);
    PowCong(w, v, m, p);
    CongTrans(Pow(w, m), Pow(v, m), -1, p);
    PowCong(w, 1, m, q);
    PowOne(m);
    UnitBase(p, w, m, -1);
    UnitBase(q, w, m, 1);
  }

  lemma ProductAboveTwo(p: int, q: int)
    requires p > 2 && q > 2
    ensures p * q > 2
  {
  }

  /**
   When every trial is conclusive, at least half of the residues coprime to n are witnesses that factor it: each
   failing one is carried to a succeeding one by an injection. That is why a hundred draws are enough.
   */
  lemma HalfTheWitnesses(p: int, q: int, n: nat, e: nat, d: nat)
    requires RsaKey(p, q, n, e, d) && AlwaysConclusive(n, e, d)
    ensures var (r, t) := TwoAdic(d * e - 1); |Units(n)| <= 2 * |Factoring(n, r, t)|
  {
    hide Divides, Prime, TwoAdic, Exponent, ModPow, RunTrial, Gcd;
    var r, t := KeyHalves(p, q, n, e, d);
    ProductAboveTwo(p, q);
    var j, w := Multiplier(p, q, n, r, t);
    var good := Factoring(n, r, t);
    var bad := Units(n) - good;
    forall g | g in bad
      ensures Twisted(n, w, g) in good
    {
      TwistPermutes(p, q, n, w, g, g);
      FailingIsSigned(n, e, d, r, t, j, g);
      TwistLeaves(p, q, n, Exponent(r, j), w, g);
      var h := Twisted(n, w, g);
      if h !in good {
        FailingIsSigned(n, e, d, r, t, j, h);
      }
    }
    forall g, h | g in bad && h in bad && Twisted(n, w, g) == Twisted(n, w, h)
      ensures g == h
    {
      TwistPermutes(p, q, n, w, g, h);
    }
    InjectionBound(bad, good, g => Twisted(n, w, g));
    assert Units(n) == good + bad;
  }

  lemma FailingIsSigned(n: nat, e: nat, d: nat, r: nat, t: nat, j: nat, g: int)
    requires n > 2 && d * e > 1 && AlwaysConclusive(n, e, d) && (r, t) == TwoAdic(d * e - 1)
    requires t >= 1 && j <= t - 1 && forall i: nat, u: nat :: j < i <= t - 1 ==> !Reaches(n, r, i, u)
    requires g in Units(n) && g !in Factoring(n, r, t)
    ensures Signed(n, r, j, g)
  {
    hide SquareRun, TwoAdic, Exponent;
    if g == 1 {
      PowOne(Exponent(r, j));
    } else {
      FailureIsSigned(n, r, t, j, g);
    }
  }
}
