/**
 What the prime recovery and the CRT parameters of src/crypto.rs mean: soundness for every modulus,
 exact conditions for completeness on RSA keys, and correctness of decryption with recovered keys.
 */
module RsaRecovery {
  import opened Bytes
  import opened Congruence
  import opened Primes
  import opened RsaMath

  /** An RSA key: d * e is 1 modulo both p - 1 and q - 1, that is modulo lambda(n). */
  ghost predicate RsaKey(p: int, q: int, n: int, e: int, d: int) {
    DistinctOddPrimes(p, q) && n == p * q && e > 0 && d > 0 && d * e > 1 &&
    Divides(p - 1, d * e - 1) && Divides(q - 1, d * e - 1)
  }

  // ---------- soundness ----------

  lemma {:induction false} SquareRunSound(n: nat, y: nat, s: nat)
    requires y < n && y != 1 && y != n - 1
    ensures var run := SquareRun(n, y, s);
            run.Factor? ==> 1 < run.p < n && run.p * (n / run.p) == n
    decreases s
  {
    if s > 0 {
      var x := ModPow(y, 2, n);
      if x == 1 {
        RootSplits(n, y);
      } else if x != n - 1 {
        SquareRunSound(n, x, s - 1);
      }
    }
  }

  /** Whatever the modulus, exponents and random draws, an answer is a proper factorisation. */
  lemma {:induction false} FirstFactorSound(n: nat, r: nat, t: nat, rng: seq<seq<Fill>>)
    requires n > 0
    ensures var f := FirstFactor(n, r, t, rng);
            f.Some? ==> 1 < f.value.0 < n && 1 < f.value.1 < n && f.value.0 * f.value.1 == n
  {
    if rng != [] {
      var g := Witness(n, rng[0]);
      if g.Some? && RunTrial(n, r, t, g.value).Factor? {
        SquareRunSound(n, ModPow(g.value, r, n), if t == 0 then 0 else t - 1);
        var p := RunTrial(n, r, t, g.value).p;
        CofactorBounds(n, p, n / p);
      } else {
        FirstFactorSound(n, r, t, rng[1..]);
      }
    }
  }

  lemma CofactorBounds(n: int, p: int, q: int)
    requires 1 < p < n && p * q == n
    ensures 1 < q < n
  {
  }

  // ---------- the powers met by a trial ----------

  /** The exponent r * 2^j met after j squarings. */
  function Exponent(r: nat, j: nat): nat {
    if j == 0 then r else 2 * Exponent(r, j - 1)
  }

  lemma {:induction false} TwoAdicSplit(k: nat)
    requires k > 0
    ensures var (r, t) := TwoAdic(k); r > 0 && r % 2 == 1 && Exponent(r, t) == k
  {
    if k % 2 == 0 {
      TwoAdicSplit(k / 2);
    }
  }

  lemma SquareStep(g: int, x: nat, n: nat)
    requires n > 0
    ensures ModPow(ModPow(g, x, n), 2, n) == ModPow(g, 2 * x, n)
  {
    var y := ModPow(g, x, n);
    CongMod(Pow(g, x), n);
    PowCong(y, Pow(g, x), 2, n);
    PowMul(g, x, 2);
    assert x * 2 == 2 * x;
    CongIffMod(Pow(y, 2), Pow(Pow(g, x), 2), n);
  }

  /** A run started at g^(r 2^j) with s squarings left does not run out if g^(r 2^(j+s)) is 1. */
  lemma {:induction false} RunConclusive(n: nat, g: int, r: nat, j: nat, s: nat)
    requires n > 1
    requires var y := ModPow(g, Exponent(r, j), n); y != 1 && y != n - 1
    requires ModPow(g, Exponent(r, j + s), n) == 1
    ensures !SquareRun(n, ModPow(g, Exponent(r, j), n), s).RanOut?
    decreases s
  {
    if s > 0 {
      SquareStep(g, Exponent(r, j), n);
      var x := ModPow(g, Exponent(r, j + 1), n);
      if x != 1 && x != n - 1 {
        RunConclusive(n, g, r, j + 1, s - 1);
      }
    }
  }

  /** If no power g^(r 2^i) met by the run is 1 or -1, it runs out. */
  lemma {:induction false} RunInconclusive(n: nat, g: int, r: nat, j: nat, s: nat)
    requires n > 1
    requires forall i: nat :: j <= i <= j + s ==>
             ModPow(g, Exponent(r, i), n) != 1 && ModPow(g, Exponent(r, i), n) != n - 1
    ensures SquareRun(n, ModPow(g, Exponent(r, j), n), s) == RanOut
    decreases s
  {
    if s > 0 {
      SquareStep(g, Exponent(r, j), n);
      assert ModPow(g, Exponent(r, j + 1), n) == ModPow(g, 2 * Exponent(r, j), n);
      RunInconclusive(n, g, r, j + 1, s - 1);
    }
  }

  // ---------- facts about RSA keys ----------

  /** d * e - 1 is even for a key, so it is halved at least once; its half is r * 2^(t-1). */
  lemma KeyHalves(p: int, q: int, n: int, e: int, d: int) returns (r: nat, t: nat)
    requires RsaKey(p, q, n, e, d)
    ensures (r, t) == TwoAdic(d * e - 1) && r % 2 == 1 && t >= 1
    ensures (d * e - 1) % 2 == 0 && Exponent(r, t - 1) == (d * e - 1) / 2
    ensures t >= 2 <==> (d * e) % 4 == 1
  {
    hide Divides, Prime, TwoAdic, Exponent;
    var k := d * e - 1;
    OddPrimeIsOdd(p);
    DividesTransitive(2, p - 1, k);
    r, t := Halves(k);
    assert k % 4 == 0 <==> (k + 1) % 4 == 1;
  }

  lemma Halves(k: nat) returns (r: nat, t: nat)
    requires k > 0 && Divides(2, k)
    ensures (r, t) == TwoAdic(k) && r % 2 == 1 && t >= 1
    ensures k % 2 == 0 && Exponent(r, t - 1) == k / 2
    ensures t >= 2 <==> k % 4 == 0
  {
    r, t := TwoAdic(k).0, TwoAdic(k).1;
    TwoAdicSplit(k);
    hide TwoAdic;
    if t > 0 {
      Doubled(k, Exponent(r, t - 1));
    }
    if t > 1 {
      Doubled(Exponent(r, t - 1), Exponent(r, t - 2));
    }
  }

  lemma Doubled(k: nat, h: nat)
    requires k == 2 * h
    ensures k % 2 == 0 && k / 2 == h && (k % 4 == 0 <==> h % 2 == 0)
  {
  }

  lemma OddPrimeIsOdd(p: int)
    requires Prime(p) && p > 2
    ensures p % 2 == 1 && Divides(2, p - 1)
  {
    assert !Divides(2, p);
  }

  /** The coprimality test of a witness, prime by prime. */
  lemma CoprimeToBoth(p: int, q: int, g: nat)
    requires Prime(p) && Prime(q) && p * q > 0 && Gcd(g, p * q) == 1
    ensures !Divides(p, g) && !Divides(q, g)
  {
    ProductDivisors(p, q);
    if Divides(p, g) {
      GcdGreatest(g, p * q, p);
      DividesBound(p, 1);
    }
    if Divides(q, g) {
      GcdGreatest(g, p * q, q);
      DividesBound(q, 1);
    }
  }

  lemma CoprimeFromBoth(p: int, q: int, g: nat)
    requires Prime(p) && Prime(q) && p * q > 0 && !Divides(p, g) && !Divides(q, g)
    ensures Gcd(g, p * q) == 1
  {
    hide Divides, Gcd;
    var n := p * q;
    var c := Gcd(g, n);
    GcdDivides(g, n);
    DividesElim(c, n);
    if Divides(p, c) {
      DividesTransitive(p, c, g);
    }
    if Divides(q, c) {
      DividesTransitive(q, c, g);
    }
    CoprimeFactor(p, q, c, n / c);
  }

  lemma CoprimeFactor(p: int, q: int, c: int, w: int)
    requires Prime(p) && Prime(q) && c > 0 && c * w == p * q && !Divides(p, c) && !Divides(q, c)
    ensures c == 1
  {
    DividesIntro(p, c * w, q);
    EuclidLemma(p, c, w);
    var v := w / p;
    assert p * (c * v) == p * q by {
      assert w == p * v;
      assert c * (p * v) == p * (c * v);
    }
    Cancel(p, c * v, q);
    DividesIntro(c, q, v);
    PrimeDivisor(q, c);
    DividesIntro(q, q, 1);
  }

  lemma Cancel(p: int, a: int, b: int)
    requires p != 0 && p * a == p * b
    ensures a == b
  {
  }

  /** ModPow(g, x, p q) is 1 (or -1) exactly when both residues of the power are. */
  lemma PowerResidues(p: int, q: int, g: int, x: nat)
    requires DistinctOddPrimes(p, q) && p * q > 0
    ensures ModPow(g, x, p * q) == 1 <==> Cong(Pow(g, x), 1, p) && Cong(Pow(g, x), 1, q)
    ensures ModPow(g, x, p * q) == p * q - 1 <==> Cong(Pow(g, x), -1, p) && Cong(Pow(g, x), -1, q)
  {
    ResidueIff(p, q, Pow(g, x), 1);
    ResidueIff(p, q, Pow(g, x), -1);
  }

  lemma ResidueIff(p: int, q: int, a: int, c: int)
    requires DistinctOddPrimes(p, q) && p * q > 0 && (c == 1 || c == -1)
    ensures a % (p * q) == (if c == 1 then 1 else p * q - 1) <==> Cong(a, c, p) && Cong(a, c, q)
  {
    var n := p * q;
    var v := if c == 1 then 1 else n - 1;
    assert n > 2 by { assert p * q >= p; }
    ProductDivisors(p, q);
    assert Cong(v, c, n) by {
      DividesIntro(n, v - c, if c == 1 then 0 else 1);
    }
    if a % n == v {
      CongMod(a, n);
      CongTrans(a, v, c, n);
      CongDivisor(a, c, p, n);
      CongDivisor(a, c, q, n);
    }
    if Cong(a, c, p) && Cong(a, c, q) {
      ChineseUnique(p, q, a, c);
      CongSym(v, c, n);
      CongTrans(a, c, v, n);
      CongMod(a, n);
      CongTrans(a % n, a, v, n);
      CongUnique(a % n, v, n);
    }
  }

  // ---------- completeness of a trial ----------

  ghost predicate AlwaysConclusive(n: nat, e: nat, d: nat)
    requires n > 0 && d * e > 1
  {
    forall g: nat :: 1 < g < n && Gcd(g, n) == 1 ==>
      !RunTrial(n, TwoAdic(d * e - 1).0, TwoAdic(d * e - 1).1, g).RanOut?
  }

  /**
   A trial with a witness coprime to n can only end in a factor, at n - 1, or at g^r = +-1, exactly
   when lambda(n) divides (d e - 1) / 2. The loop makes t - 1 squarings, one fewer than
   SP 800-56B Rev. 2, Appendix C.1, so d e = 1 modulo lambda(n) alone does not suffice.
   */
  lemma TrialConclusiveIff(p: int, q: int, n: nat, e: nat, d: nat)
    requires RsaKey(p, q, n, e, d)
    ensures AlwaysConclusive(n, e, d) <==>
            Divides(p - 1, (d * e - 1) / 2) && Divides(q - 1, (d * e - 1) / 2)
  {
    var half := (d * e - 1) / 2;
    var r, t := KeyHalves(p, q, n, e, d);
    if Divides(p - 1, half) && Divides(q - 1, half) {
      forall g: nat | 1 < g < n && Gcd(g, n) == 1
        ensures !RunTrial(n, r, t, g).RanOut?
      {
        CoprimeToBoth(p, q, g);
        FermatMultiple(p, g, half);
        FermatMultiple(q, g, half);
        PowerResidues(p, q, g, half);
        var y := ModPow(g, Exponent(r, 0), n);
        if y != 1 && y != n - 1 {
          RunConclusive(n, g, r, 0, t - 1);
        }
      }
    } else if !Divides(p - 1, half) {
      StuckWitness(p, q, n, e, d);
    } else {
      assert q * p == p * q;
      StuckWitness(q, p, n, e, d);
    }
  }

  /** If g is 1 modulo q and its last power is -1 modulo p, no earlier power is 1 or -1 modulo both. */
  lemma NeverASign(p: int, q: int, g: int, r: nat, i: nat, last: nat)
    requires DistinctOddPrimes(p, q) && p * q > 0 && i <= last && r > 0
    requires Cong(g, 1, q) && Cong(Pow(g, Exponent(r, last)), -1, p)
    ensures ModPow(g, Exponent(r, i), p * q) != 1 && ModPow(g, Exponent(r, i), p * q) != p * q - 1
  {
    hide Divides, Prime, Exponent, ModPow;
    var x, half := Exponent(r, i), Exponent(r, last);
    PowerResidues(p, q, g, x);
    PowCong(g, 1, x, q);
    PowOne(x);
    OneIsNotMinusOne(q);
    if Cong(Pow(g, x), -1, q) {
      CongSym(Pow(g, x), 1, q);
      CongTrans(1, Pow(g, x), -1, q);
    }
    if Cong(Pow(g, x), 1, p) {
      ExponentDivides(r, i, last);
      PowOrderNat(g, x, half, p);
      CongSym(Pow(g, half), 1, p);
      CongTrans(1, Pow(g, half), -1, p);
      OneIsNotMinusOne(p);
    }
  }

  /** If p - 1 does not divide (d e - 1) / 2, a non-residue modulo p that is 1 modulo q gets stuck. */
  lemma StuckWitness(p: int, q: int, n: nat, e: nat, d: nat)
    requires RsaKey(p, q, n, e, d) && !Divides(p - 1, (d * e - 1) / 2)
    ensures !AlwaysConclusive(n, e, d)
  {
    hide Divides, Prime;
    var half := (d * e - 1) / 2;
    var r, t := KeyHalves(p, q, n, e, d);
    OddPrimeIsOdd(p);
    var h := NonResidueExists(p);
    var g := ChineseExists(p, q, h, 1);
    HalfPower(p, h, d * e - 1);
    PowCong(g, h, half, p);
    CongTrans(Pow(g, half), Pow(h, half), -1, p);
    forall i: nat | i <= t - 1
      ensures ModPow(g, Exponent(r, i), n) != 1 && ModPow(g, Exponent(r, i), n) != n - 1
    {
      NeverASign(p, q, g, r, i, t - 1);
    }
    RunInconclusive(n, g, r, 0, t - 1);
    assert !Divides(p, g) && !Divides(q, g) by {
      NotDivisible(g, h, p);
      DividesBoundOne(q);
      NotDivisible(g, 1, q);
    }
    CoprimeFromBoth(p, q, g);
    GIsProper(p, q, g, r);
    assert RunTrial(n, r, t, g).RanOut?;
  }

  lemma GIsProper(p: int, q: int, g: int, x: nat)
    requires DistinctOddPrimes(p, q) && 0 <= g < p * q && !Divides(p, g)
    requires ModPow(g, x, p * q) != 1
    ensures 1 < g
  {
    assert p * q > 1;
    if g == 1 {
      PowOne(x);
    }
  }

  lemma DividesBoundOne(q: int)
    requires q > 1
    ensures !Divides(q, 1)
  {
  }

  lemma NotDivisible(g: int, h: int, p: int)
    requires p > 0 && Cong(g, h, p) && !Divides(p, h)
    ensures !Divides(p, g)
  {
    if Divides(p, g) {
      DividesCombination(p, g, g - h, 1, -1);
    }
  }

  lemma {:induction false} ExponentDivides(r: nat, i: nat, j: nat)
    requires i <= j && r > 0
    ensures Exponent(r, i) > 0 && Divides(Exponent(r, i), Exponent(r, j))
    decreases j
  {
    if i == j {
      ExponentPositive(r, i);
      DividesIntro(Exponent(r, i), Exponent(r, i), 1);
    } else {
      ExponentDivides(r, i, j - 1);
      DividesMultiple(Exponent(r, i), Exponent(r, j - 1), 2);
    }
  }

  lemma {:induction false} ExponentPositive(r: nat, i: nat)
    requires r > 0
    ensures Exponent(r, i) > 0
  {
    if i > 0 {
      ExponentPositive(r, i - 1);
    }
  }

  lemma PowOrderNat(g: int, x: nat, k: nat, p: int)
    requires p > 0 && x > 0 && Divides(x, k) && Cong(Pow(g, x), 1, p)
    ensures Cong(Pow(g, k), 1, p)
  {
    PowOrder(g, x, k, p);
  }

  /** For h^((p-1)/2) = -1 and p - 1 dividing k but not k / 2, h^(k/2) = -1. */
  lemma HalfPower(p: int, h: int, k: nat)
    requires Prime(p) && p > 2 && p % 2 == 1 && k % 2 == 0
    requires Cong(Pow(h, (p - 1) / 2), -1, p) && Divides(p - 1, k) && !Divides(p - 1, k / 2)
    ensures Cong(Pow(h, k / 2), -1, p)
  {
    hide Prime, Divides, Pow;
    DividesElim(p - 1, k);
    var m, c: nat := (p - 1) / 2, k / (p - 1);
    assert p - 1 == 2 * m;
    HalfMultiple(m, c, k);
    PowMul(h, m, c);
    PowCong(Pow(h, m), -1, c, p);
    PowMinusOne(c);
  }

  lemma HalfMultiple(m: nat, c: nat, k: nat)
    requires m > 0 && k == (2 * m) * c && !Divides(2 * m, k / 2)
    ensures k / 2 == m * c && c % 2 == 1
  {
    assert k == 2 * (m * c);
    if c % 2 == 0 {
      var v := c / 2;
      assert m * (2 * v) == (2 * m) * v;
      DividesIntro(2 * m, k / 2, v);
    }
  }

  lemma QuarterProduct(a: int, b: int, c: int)
    ensures (2 * a) * (2 * b) * c == 2 * ((2 * a) * (b * c))
    ensures (2 * a) * (2 * b) * c == 2 * ((2 * b) * (a * c))
  {
  }

  /** phi(n) | d e - 1, the textbook relation, is enough for every trial to be conclusive. */
  lemma PhiKeyConclusive(p: int, q: int, n: nat, e: nat, d: nat)
    requires RsaKey(p, q, n, e, d) && (p - 1) * (q - 1) > 0 && Divides((p - 1) * (q - 1), d * e - 1)
    ensures AlwaysConclusive(n, e, d)
  {
    var k := d * e - 1;
    var c := k / ((p - 1) * (q - 1));
    OddPrimeIsOdd(p);
    OddPrimeIsOdd(q);
    var a, b := (p - 1) / 2, (q - 1) / 2;
    assert k == (2 * a) * (2 * b) * c;
    QuarterProduct(a, b, c);
    DividesIntro(p - 1, k / 2, b * c);
    DividesIntro(q - 1, k / 2, a * c);
    TrialConclusiveIff(p, q, n, e, d);
  }

  // ---------- existence of a successful witness ----------

  /** The witness that is 1 modulo p and -1 modulo q splits n at the first squaring, if there is one. */
  lemma SuccessfulWitness(p: int, q: int, n: nat, e: nat, d: nat) returns (g: nat)
    requires RsaKey(p, q, n, e, d) && (d * e) % 4 == 1
    ensures 1 < g < n && Gcd(g, n) == 1
    ensures RunTrial(n, TwoAdic(d * e - 1).0, TwoAdic(d * e - 1).1, g).Factor?
  {
    var r, t := KeyHalves(p, q, n, e, d);
    g := ChineseExists(p, q, 1, -1);
    OneIsNotMinusOne(p);
    OneIsNotMinusOne(q);
    SignPattern(p, q, g, r);
    SignPattern(p, q, g, 2 * r);
    SquareStep(g, r, n);
    DividesBoundOne(p);
    DividesBoundOne(q);
    NotDivisible(g, 1, p);
    NotDivisible(g, -1, q);
    CoprimeFromBoth(p, q, g);
    GIsProper(p, q, g, r);
  }

  lemma SignPattern(p: int, q: int, g: int, x: nat)
    requires DistinctOddPrimes(p, q) && p * q > 0 && Cong(g, 1, p) && Cong(g, -1, q)
    ensures x % 2 == 0 ==> ModPow(g, x, p * q) == 1
    ensures x % 2 == 1 ==> ModPow(g, x, p * q) != 1 && ModPow(g, x, p * q) != p * q - 1
  {
    PowerResidues(p, q, g, x);
    PowCong(g, 1, x, p);
    PowCong(g, -1, x, q);
    PowOne(x);
    PowMinusOne(x);
    if x % 2 == 1 {
      OneIsNotMinusOne(p);
      OneIsNotMinusOne(q);
      if Cong(Pow(g, x), 1, q) {
        CongSym(Pow(g, x), 1, q);
        CongTrans(1, Pow(g, x), -1, q);
      }
      if Cong(Pow(g, x), -1, p) {
        CongSym(Pow(g, x), 1, p);
        CongTrans(1, Pow(g, x), -1, p);
      }
    }
  }

  /** Every residue above 1 can be drawn, and a tape of such draws settles on it. */
  lemma WitnessDrawn(n: nat, g: nat) returns (rng: seq<seq<Fill>>)
    requires 1 < g < n
    ensures Tape(n, rng) && Witness(n, rng[0]) == Some(g)
  {
    var b := FixedBE(g, ByteLen(n));
    FromFixedBE(g, ByteLen(n));
    FromBEBound(ToBE(n));
    FromToBE(n);
    ModUnique(g, Exp256(ByteLen(n)), 0, g);
    ModUnique(g, n, 0, g);
    var draws: seq<Fill> := seq(10, _ => Some(b));
    rng := seq(100, _ => draws);
  }

  /** With at most one halving the squaring loop is empty, so no draw ever yields a factor. */
  lemma {:induction false} NeverFactors(n: nat, r: nat, t: nat, rng: seq<seq<Fill>>)
    requires n > 0 && t <= 1
    ensures FirstFactor(n, r, t, rng) == None
  {
    if rng != [] {
      NeverFactors(n, r, t, rng[1..]);
    }
  }

  lemma TapeSucceeds(n: nat, r: nat, t: nat, g: nat) returns (rng: seq<seq<Fill>>)
    requires 1 < g < n && RunTrial(n, r, t, g).Factor?
    ensures Tape(n, rng) && FirstFactor(n, r, t, rng).Some?
  {
    rng := WitnessDrawn(n, g);
  }

  lemma NeverRecovered(p: int, q: int, n: nat, e: nat, d: nat, rng: seq<seq<Fill>>)
    requires RsaKey(p, q, n, e, d) && (d * e) % 4 != 1
    ensures Recovered(n, e, d, rng) == None
  {
    var r, t := KeyHalves(p, q, n, e, d);
    NeverFactors(n, r, t, rng);
  }

  /** Recovery can succeed on an RSA key exactly when d e = 1 modulo 4. */
  lemma RecoverableIff(p: int, q: int, n: nat, e: nat, d: nat)
    requires RsaKey(p, q, n, e, d)
    ensures (exists rng :: Tape(n, rng) && Recovered(n, e, d, rng).Some?) <==> (d * e) % 4 == 1
  {
    if (d * e) % 4 == 1 {
      var g := SuccessfulWitness(p, q, n, e, d);
      var rng := TapeSucceeds(n, TwoAdic(d * e - 1).0, TwoAdic(d * e - 1).1, g);
      assert Tape(n, rng) && Recovered(n, e, d, rng).Some?;
    } else {
      forall rng
        ensures Recovered(n, e, d, rng) == None
      {
        NeverRecovered(p, q, n, e, d, rng);
      }
    }
  }

  /** Whatever is recovered from an RSA key is its pair of primes. */
  lemma RecoveredPrimes(p: int, q: int, n: nat, e: nat, d: nat, rng: seq<seq<Fill>>)
    requires RsaKey(p, q, n, e, d) && Recovered(n, e, d, rng).Some?
    ensures var f := Recovered(n, e, d, rng).value; f == (p, q) || f == (q, p)
  {
    FirstFactorSound(n, TwoAdic(d * e - 1).0, TwoAdic(d * e - 1).1, rng);
    var f := Recovered(n, e, d, rng).value;
    SemiprimeFactors(p, q, f.0, f.1);
  }

  /** A valid key, n = 77 with e = 7 and d = 13, from which no draws recover the primes. */
  lemma UnrecoverableKey(rng: seq<seq<Fill>>)
    ensures RsaKey(7, 11, 77, 7, 13)
    ensures Recovered(77, 7, 13, rng) == None
  {
    assert !Divides(2, 7) && !Divides(3, 7) && !Divides(4, 7) && !Divides(5, 7) && !Divides(6, 7);
    assert !Divides(2, 11) && !Divides(3, 11) && !Divides(4, 11) && !Divides(5, 11) && !Divides(6, 11)
      && !Divides(7, 11) && !Divides(8, 11) && !Divides(9, 11) && !Divides(10, 11);
    assert RsaKey(7, 11, 77, 7, 13);
    NeverRecovered(7, 11, 77, 7, 13, rng);
  }
}
