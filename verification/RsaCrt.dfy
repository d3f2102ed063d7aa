/** The CRT form of a recovered private key and its use in the private-key operation. */
module RsaCrt {
  import opened Bytes
  import opened Congruence
  import opened Primes
  import opened RsaMath
  import RsaRecovery

  datatype Components = Components(n: nat, e: nat, d: nat, p: nat, q: nat, dp: nat, dq: nat, qi: nat)

  datatype RecoveryError = NoPrimes | NoInverse

  /** The recovered pair with the larger prime first. */
  function Ordered(f: (nat, nat)): (nat, nat) {
    if f.0 < f.1 then (f.1, f.0) else f
  }

  function RecoveredComponents(n: nat, e: nat, d: nat, rng: seq<seq<Fill>>): Result<Components, RecoveryError>
    requires n > 0 && d * e > 1
  {
    var f := Recovered(n, e, d, rng);
    if f == None then Err(NoPrimes)
    else
      RsaRecovery.FirstFactorSound(n, TwoAdic(d * e - 1).0, TwoAdic(d * e - 1).1, rng);
      var (p, q) := Ordered(f.value);
      var crt := ComputeCrt(p, q, d);
      if crt == None then Err(NoInverse)
      else Ok(Components(n, e, d, p, q, crt.value.0, crt.value.1, crt.value.2))
  }

  /** The rebuilt components are the given three, the recovered pair in descending order, and its CRT parameters. */
  lemma RebuiltIff(k: Components, rng: seq<seq<Fill>>)
    requires k.n > 0 && k.d * k.e > 1
    ensures RecoveredComponents(k.n, k.e, k.d, rng) == Ok(k)
       <==> (Recovered(k.n, k.e, k.d, rng) == Some((k.p, k.q)) || Recovered(k.n, k.e, k.d, rng) == Some((k.q, k.p))) &&
            k.p >= k.q > 1 && k.dp == k.d % (k.p - 1) && k.dq == k.d % (k.q - 1) && k.qi < k.p &&
            k.q * k.qi % k.p == 1
  {
    hide Recovered, ComputeCrt;
    if Recovered(k.n, k.e, k.d, rng).Some? {
      RecoveredBounds(k.n, k.e, k.d, rng);
      if k.p > 1 && k.q > 1 {
        CrtIff(k);
      }
    }
  }

  lemma CrtIff(k: Components)
    requires k.p > 1 && k.q > 1
    ensures ComputeCrt(k.p, k.q, k.d) == Some((k.dp, k.dq, k.qi))
       <==> k.dp == k.d % (k.p - 1) && k.dq == k.d % (k.q - 1) && k.qi < k.p && k.q * k.qi % k.p == 1
  {
    hide ModInverse, Cong;
    ModInverseCorrect(k.q, k.p);
    if k.qi < k.p {
      InverseUnique(k.q, k.p, k.qi);
    }
  }

  lemma RecoveredBounds(n: nat, e: nat, d: nat, rng: seq<seq<Fill>>)
    requires n > 0 && d * e > 1 && Recovered(n, e, d, rng).Some?
    ensures Recovered(n, e, d, rng).value.0 > 1 && Recovered(n, e, d, rng).value.1 > 1
  {
    RsaRecovery.FirstFactorSound(n, TwoAdic(d * e - 1).0, TwoAdic(d * e - 1).1, rng);
  }

  /** The part of `extract_or_recover_rsa_components` for a key without "p". */
  method RecoverComponents(n: nat, e: nat, d: nat, rng: seq<seq<Fill>>) returns (res: Result<Components, RecoveryError>)
    requires n > 0 && d * e > 1
    requires |rng| == 100 && forall i :: 0 <= i < 100 ==> |rng[i]| == 10
    ensures res == RecoveredComponents(n, e, d, rng)
  {
    var f := RecoverPrimes(n, e, d, rng);
    if f == None {
      return Err(NoPrimes);
    }
    RsaRecovery.CofactorBounds(n, f.value.0, f.value.1);
    var p, q := f.value.0, f.value.1;
    if p < q {
      p, q := q, p;
    }
    var crt := ComputeCrt(p, q, d);
    if crt == None {
      return Err(NoInverse);
    }
    return Ok(Components(n, e, d, p, q, crt.value.0, crt.value.1, crt.value.2));
  }

  /** The RSA private-key operation on a key in CRT form (RFC 8017, section 5.1.2, step 2b). */
  function Garner(k: Components, c: nat): nat
    requires k.p > 1 && k.q > 1
  {
    var m1, m2 := ModPow(c, k.dp, k.p), ModPow(c, k.dq, k.q);
    var h := ((m1 - m2) * k.qi) % k.p;
    m2 + k.q * h
  }

  /** Reducing the private exponent modulo p - 1 changes no power modulo p, not even of multiples of p. */
  lemma ReducedExponent(p: int, c: nat, d: nat, e: nat)
    requires Prime(p) && p > 2 && d > 0 && e > 0 && Divides(p - 1, d * e - 1)
    ensures Cong(Pow(c, d % (p - 1)), Pow(c, d), p)
    ensures Cong(e * (d % (p - 1)), 1, p - 1)
  {
    ReducedInverse(p - 1, d, e);
    var r := d % (p - 1);
    if Divides(p, c) {
      DividesPower(p, c, r);
      DividesPower(p, c, d);
      DividesCombination(p, Pow(c, r), Pow(c, d), 1, -1);
    } else {
      ReducedPower(p, c, d);
    }
  }

  lemma ReducedInverse(m: int, d: nat, e: nat)
    requires m > 1 && Divides(m, d * e - 1)
    ensures Cong(e * (d % m), 1, m) && d % m > 0
  {
    CongMod(d, m);
    CongRefl(e, m);
    CongMul(e, e, d % m, d, m);
    assert e * d == d * e;
    CongTrans(e * (d % m), e * d, 1, m);
    if d % m == 0 {
      DividesCombination(m, e * (d % m) - 1, 0, -1, 0);
      DividesBound(m, 1);
    }
  }

  lemma ReducedPower(p: int, c: nat, d: nat)
    requires Prime(p) && !Divides(p, c)
    ensures Cong(Pow(c, d % (p - 1)), Pow(c, d), p)
  {
    var k: nat, r: nat := d - d % (p - 1), d % (p - 1);
    assert k == (p - 1) * (d / (p - 1));
    DividesIntro(p - 1, k, d / (p - 1));
    PowAdd(c, k, r);
    FermatMultiple(p, c, k);
    CongRefl(Pow(c, r), p);
    CongMul(Pow(c, k), 1, Pow(c, r), Pow(c, r), p);
    CongSym(Pow(c, d), Pow(c, r), p);
  }

  lemma DividesPower(p: int, c: int, e: nat)
    requires p > 0 && e > 0 && Divides(p, c)
    ensures Divides(p, Pow(c, e))
  {
    DividesMultiple(p, c, Pow(c, e - 1));
  }

  lemma GarnerResidues(k: Components, c: nat)
    requires k.p > 1 && k.q > 1 && Cong(k.q * k.qi, 1, k.p)
    ensures 0 <= Garner(k, c) < k.p * k.q
    ensures Cong(Garner(k, c), Pow(c, k.dp), k.p) && Cong(Garner(k, c), Pow(c, k.dq), k.q)
  {
    var p, q := k.p, k.q;
    var m1, m2 := ModPow(c, k.dp, p), ModPow(c, k.dq, q);
    CongMod(Pow(c, k.dp), p);
    CongMod(Pow(c, k.dq), q);
    GarnerStep(p, q, k.qi, m1, m2);
    CongTrans(Garner(k, c), m1, Pow(c, k.dp), p);
    CongTrans(Garner(k, c), m2, Pow(c, k.dq), q);
  }

  lemma GarnerStep(p: int, q: int, qi: int, m1: int, m2: int)
    requires p > 1 && q > 1 && Cong(q * qi, 1, p) && 0 <= m2 < q
    ensures var m := m2 + q * (((m1 - m2) * qi) % p); 0 <= m < p * q && Cong(m, m1, p) && Cong(m, m2, q)
  {
    var h := ((m1 - m2) * qi) % p;
    GarnerLift(p, q, qi, m1 - m2);
    CongRefl(m2, p);
    CongAdd(m2, m2, q * h, m1 - m2, p);
    DividesIntro(q, q * h, h);
    GarnerBound(p, q, m2, h);
  }

  lemma GarnerLift(p: int, q: int, qi: int, w: int)
    requires p > 1 && Cong(q * qi, 1, p)
    ensures Cong(q * ((w * qi) % p), w, p)
  {
    CongMod(w * qi, p);
    CongRefl(q, p);
    CongMul(q, q, (w * qi) % p, w * qi, p);
    CongRefl(w, p);
    CongMul(w, w, q * qi, 1, p);
    assert q * (w * qi) == w * (q * qi);
    CongTrans(q * ((w * qi) % p), w * (q * qi), w, p);
  }

  lemma GarnerBound(p: int, q: int, m2: int, h: int)
    requires q > 0 && 0 <= m2 < q && 0 <= h < p
    ensures 0 <= m2 + q * h < p * q
  {
    assert 0 <= q * h <= q * (p - 1);
    assert q * (p - 1) == p * q - q;
  }

  /** The CRT components of a valid key satisfy section 3.2 of RFC 8017, and Garner's recombination equals c^d. */
  lemma CrtCorrect(p: nat, q: nat, n: nat, e: nat, d: nat, c: nat)
    requires RsaRecovery.RsaKey(p, q, n, e, d)
    ensures ComputeCrt(p, q, d).Some?
    ensures var (dp, dq, qi) := ComputeCrt(p, q, d).value;
            Cong(e * dp, 1, p - 1) && Cong(e * dq, 1, q - 1) && Cong(q * qi, 1, p) && qi < p &&
            Garner(Components(n, e, d, p, q, dp, dq, qi), c) == ModPow(c, d, n)
  {
    PrimesCoprime(p, q);
    ModInverseCorrect(q, p);
    var (dp, dq, qi) := ComputeCrt(p, q, d).value;
    var k := Components(n, e, d, p, q, dp, dq, qi);
    ReducedExponent(p, c, d, e);
    ReducedExponent(q, c, d, e);
    GarnerResidues(k, c);
    var m := Garner(k, c);
    CongTrans(m, Pow(c, dp), Pow(c, d), p);
    CongTrans(m, Pow(c, dq), Pow(c, d), q);
    ChineseUnique(p, q, m, Pow(c, d));
    CongMod(Pow(c, d), n);
    CongTrans(m, Pow(c, d), ModPow(c, d, n), n);
    CongUnique(m, ModPow(c, d, n), n);
  }

  lemma PrimesCoprime(p: nat, q: nat)
    requires Prime(p) && Prime(q) && p != q
    ensures Gcd(q, p) == 1
  {
    GcdDivides(q, p);
    PrimeDivisor(p, Gcd(q, p));
    PrimeDivisor(q, Gcd(q, p));
  }

  /** Encrypting with e and then decrypting with d is the identity on every residue, coprime to n or not. */
  lemma PowerInverse(p: int, q: int, n: nat, e: nat, d: nat, m: nat)
    requires RsaRecovery.RsaKey(p, q, n, e, d) && m < n
    ensures ModPow(ModPow(m, e, n), d, n) == m
  {
    var c := ModPow(m, e, n);
    PowMul(m, e, d);
    assert e * d == d * e;
    CongMod(Pow(m, e), n);
    PowCong(c, Pow(m, e), d, n);
    PowerIdentity(p, m, d * e);
    PowerIdentity(q, m, d * e);
    ChineseUnique(p, q, Pow(m, d * e), m);
    CongTrans(Pow(c, d), Pow(m, d * e), m, n);
    CongMod(Pow(c, d), n);
    CongTrans(ModPow(c, d, n), Pow(c, d), m, n);
    CongUnique(ModPow(c, d, n), m, n);
  }

  lemma PowerIdentity(p: int, m: nat, k: nat)
    requires Prime(p) && k > 0 && Divides(p - 1, k - 1)
    ensures Cong(Pow(m, k), m, p)
  {
    if Divides(p, m) {
      DividesPower(p, m, k);
      DividesCombination(p, Pow(m, k), m, 1, -1);
    } else {
      FermatMultiple(p, m, k - 1);
      CongRefl(m, p);
      CongMul(m, m, Pow(m, k - 1), 1, p);
    }
  }

  /** The key rebuilt from (n, e, d) has the key's own primes, larger first, and decrypts every message. */
  lemma RecoveredKeyDecrypts(p: int, q: int, n: nat, e: nat, d: nat, rng: seq<seq<Fill>>, m: nat)
    requires RsaRecovery.RsaKey(p, q, n, e, d) && m < n && Recovered(n, e, d, rng).Some?
    ensures RecoveredComponents(n, e, d, rng).Ok?
    ensures var k := RecoveredComponents(n, e, d, rng).value;
            (k.n, k.e, k.d) == (n, e, d) && k.p > k.q > 1 && ((k.p, k.q) == (p, q) || (k.p, k.q) == (q, p)) &&
            Cong(e * k.dp, 1, k.p - 1) && Cong(e * k.dq, 1, k.q - 1) && Cong(k.q * k.qi, 1, k.p) &&
            Garner(k, ModPow(m, e, n)) == m
  {
    hide Divides, Prime;
    RsaRecovery.RecoveredPrimes(p, q, n, e, d, rng);
    var (a, b) := Ordered(Recovered(n, e, d, rng).value);
    assert q * p == p * q;
    assert RsaRecovery.RsaKey(a, b, n, e, d);
    CrtCorrect(a, b, n, e, d, ModPow(m, e, n));
    PowerInverse(a, b, n, e, d, m);
  }
}
