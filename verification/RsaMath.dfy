/**
 The hand-written RSA arithmetic of src/crypto.rs: witness generation, recovery of the prime
 factors from (n, e, d), the CRT parameters and the extended Euclidean algorithm.
 */
module RsaMath {
  import opened Bytes
  import opened Congruence
  import opened Primes

  // ---------- extended Euclid with the truncating division of BigInt ----------

  function Abs(a: int): nat {
    if a < 0 then -a else a
  }

  function TruncDiv(a: int, b: int): int
    requires b != 0
  {
    if (a >= 0) == (b > 0) then Abs(a) / Abs(b) else -(Abs(a) / Abs(b))
  }

  function TruncMod(a: int, b: int): (r: int)
    requires b != 0
    ensures Abs(r) < Abs(b)
    ensures a >= 0 ==> r >= 0
  {
    a - TruncDiv(a, b) * b
  }

  function ExtendedGcd(a: int, b: int): (int, int, int)
    decreases Abs(b)
  {
    if b == 0 then (a, 1, 0)
    else
      var (g, x, y) := ExtendedGcd(b, TruncMod(a, b));
      (g, y, x - TruncDiv(a, b) * y)
  }

  /** Bezout's identity holds for all integers. */
  lemma {:induction false} ExtendedGcdBezout(a: int, b: int)
    ensures a * ExtendedGcd(a, b).1 + b * ExtendedGcd(a, b).2 == ExtendedGcd(a, b).0
    decreases Abs(b)
  {
    if b != 0 {
      ExtendedGcdBezout(b, TruncMod(a, b));
      var (g, x, y) := ExtendedGcd(b, TruncMod(a, b));
      BezoutStep(a, b, TruncDiv(a, b), TruncMod(a, b), x, y, g);
    }
  }

  lemma BezoutStep(a: int, b: int, q: int, r: int, x: int, y: int, g: int)
    requires r == a - q * b && b * x + r * y == g
    ensures a * y + b * (x - q * y) == g
  {
  }

  /** For non-negative inputs the first component is the greatest common divisor. */
  lemma {:induction false} ExtendedGcdIsGcd(a: nat, b: nat)
    ensures ExtendedGcd(a, b).0 == Gcd(a, b)
    decreases b
  {
    if b != 0 {
      TruncModNat(a, b);
      ExtendedGcdIsGcd(b, a % b);
    }
  }

  lemma TruncModNat(a: nat, b: nat)
    requires b > 0
    ensures TruncMod(a, b) == a % b
  {
  }

  function ModInverse(a: nat, m: nat): Option<nat>
    requires m > 0
  {
    var (g, x, _) := ExtendedGcd(a, m);
    if g != 1 then None
    else
      var result := TruncMod(x, m);
      if result < 0 then Some(result + m) else Some(result)
  }

  /** `mod_inverse` answers exactly for the units modulo m, with the inverse in [0, m). */
  lemma ModInverseCorrect(a: nat, m: nat)
    requires m > 0
    ensures ModInverse(a, m).Some? <==> Gcd(a, m) == 1
    ensures ModInverse(a, m).Some? ==> ModInverse(a, m).value < m && Cong(a * ModInverse(a, m).value, 1, m)
  {
    ExtendedGcdBezout(a, m);
    ExtendedGcdIsGcd(a, m);
    var (g, x, y) := ExtendedGcd(a, m);
    if g == 1 {
      TruncModQuotient(x, m);
      var r := TruncMod(x, m);
      var q :| r == x - q * m;
      if r < 0 {
        assert (q - 1) * m == q * m - m;
        InverseStep(a, m, x, y, q - 1, r + m);
      } else {
        InverseStep(a, m, x, y, q, r);
      }
    }
  }

  /** A number below m that multiplies with a to 1 modulo m is the answer. */
  lemma InverseUnique(a: nat, m: nat, x: nat)
    requires m > 1 && x < m
    ensures ModInverse(a, m) == Some(x) <==> a * x % m == 1
  {
    hide ModInverse, Cong, Divides;
    ModInverseCorrect(a, m);
    CongIffMod(a * x, 1, m);
    SmallIsItself(1, m);
    if Cong(a * x, 1, m) {
      GcdDivides(a, m);
      var g, q := Gcd(a, m), a * x / m;
      DividesCombination(g, a, m, x, -q);
      UnitQuotient(a * x, m, q);
      assert x * a + -q * m == 1;
      DividesBound(g, 1);
      var y := ModInverse(a, m).value;
      OnlyInverse(a, m, x, y);
    }
  }

  lemma SmallIsItself(r: nat, m: nat)
    requires r < m
    ensures r % m == r
  {
  }

  lemma UnitQuotient(x: nat, m: nat, q: nat)
    requires m > 0 && x % m == 1 && q == x / m
    ensures x == q * m + 1
  {
  }

  lemma OnlyInverse(a: nat, m: nat, x: nat, y: nat)
    requires m > 0 && x < m && y < m && Cong(a * x, 1, m) && Cong(a * y, 1, m)
    ensures x == y
  {
    hide Cong;
    CongRefl(x, m);
    CongRefl(y, m);
    CongMul(x, x, a * y, 1, m);
    CongMul(y, y, a * x, 1, m);
    assert x * (a * y) == y * (a * x);
    CongSym(x * (a * y), x, m);
    CongTrans(x, x * (a * y), y, m);
    CongUnique(x, y, m);
  }

  lemma TruncModQuotient(x: int, m: int)
    requires m > 0
    ensures exists q :: TruncMod(x, m) == x - q * m
  {
    assert TruncMod(x, m) == x - TruncDiv(x, m) * m;
  }

  lemma InverseStep(a: int, m: int, x: int, y: int, q: int, i: int)
    requires m > 0 && a * x + m * y == 1 && i == x - q * m
    ensures Cong(a * i, 1, m)
  {
    assert a * i - 1 == m * (-y - a * q) by {
      assert a * i == a * x - a * (q * m);
      assert a * (q * m) == m * (a * q);
    }
    DividesIntro(m, a * i - 1, -y - a * q);
  }

  // ---------- random witnesses ----------

  /** The result of one `rand::fill`: the bytes, or None when the generator fails. */
  type Fill = Option<bytes>

  /** The residue a witness generator settles on, given its ten draws. */
  function Witness(n: nat, fills: seq<Fill>): (g: Option<nat>)
    requires n > 0
    ensures g.Some? ==> 1 < g.value < n
  {
    if fills == [] || fills[0] == None then None
    else if FromBE(fills[0].value) % n > 1 then Some(FromBE(fills[0].value) % n)
    else Witness(n, fills[1..])
  }

  method GenWitness(n: nat, fills: seq<Fill>) returns (res: Option<nat>)
    requires n > 0 && |fills| == 10
    ensures res == Witness(n, fills)
    ensures res.Some? ==> 1 < res.value < n
  {
    for i := 0 to 10
      invariant Witness(n, fills) == Witness(n, fills[i..])
    {
      if fills[i] == None {
        return None;
      }
      var g := FromBE(fills[i].value);
      g := g % n;
      if g > 1 {
        return Some(g);
      }
      assert fills[i..][1..] == fills[i + 1..];
    }
    return None;
  }

  /** The buffer length of `gen_witness`: (bits(n) + 7) / 8 is the number of base-256 digits. */
  function ByteLen(n: nat): nat {
    if n == 0 then 0 else |ToBE(n)|
  }

  /** What the random generator may hand to the hundred calls of `gen_witness`. */
  ghost predicate Tape(n: nat, rng: seq<seq<Fill>>) {
    |rng| == 100 &&
    forall i :: 0 <= i < |rng| ==> |rng[i]| == 10 && forall f :: f in rng[i] ==> f.Some? ==> |f.value| == ByteLen(n)
  }

  // ---------- recovery of the primes ----------

  /** k = r * 2^t with r odd: the pair (r, t). */
  function TwoAdic(k: nat): (nat, nat)
    requires k > 0
  {
    if k % 2 == 0 then (TwoAdic(k / 2).0, TwoAdic(k / 2).1 + 1) else (k, 0)
  }

  datatype Trial = Factor(p: nat) | MinusOne | RanOut | Skipped

  /** At most s squarings of y, looking for a square root of 1. */
  function SquareRun(n: nat, y: nat, s: nat): (run: Trial)
    requires n > 0
    ensures run.Factor? ==> run.p > 0
    ensures !run.Skipped?
    decreases s
  {
    if s == 0 then RanOut
    else
      var x := ModPow(y, 2, n);
      if x == 1 then GcdDivides(y - 1, n); Factor(Gcd(y - 1, n))
      else if x == n - 1 then MinusOne
      else SquareRun(n, x, s - 1)
  }

  /** One iteration of the outer loop on witness g, for d * e - 1 == r * 2^t. */
  function RunTrial(n: nat, r: nat, t: nat, g: nat): (run: Trial)
    requires n > 0
    ensures run.Factor? ==> run.p > 0
  {
    var y := ModPow(g, r, n);
    if y == 1 || y == n - 1 then Skipped else SquareRun(n, y, if t == 0 then 0 else t - 1)
  }

  function Cofactor(n: nat, p: nat): nat
    requires p > 0
  {
    n / p
  }

  /** The answer of the first witness that yields a factor. */
  function FirstFactor(n: nat, r: nat, t: nat, rng: seq<seq<Fill>>): Option<(nat, nat)>
    requires n > 0
  {
    if rng == [] then None
    else
      var g := Witness(n, rng[0]);
      if g.Some? && RunTrial(n, r, t, g.value).Factor? then
        Some((RunTrial(n, r, t, g.value).p, Cofactor(n, RunTrial(n, r, t, g.value).p)))
      else FirstFactor(n, r, t, rng[1..])
  }

  function Recovered(n: nat, e: nat, d: nat, rng: seq<seq<Fill>>): Option<(nat, nat)>
    requires n > 0 && d * e > 1
  {
    var (r, t) := TwoAdic(d * e - 1);
    FirstFactor(n, r, t, rng)
  }

  method RecoverPrimes(n: nat, e: nat, d: nat, rng: seq<seq<Fill>>) returns (res: Option<(nat, nat)>)
    requires n > 0 && d * e > 1
    requires |rng| == 100 && forall i :: 0 <= i < 100 ==> |rng[i]| == 10
    ensures res == Recovered(n, e, d, rng)
    ensures res.Some? ==> 1 < res.value.0 < n && res.value.0 * res.value.1 == n
  {
    var k := d * e - 1;
    var r := k;
    var t := 0;
    while r % 2 == 0
      invariant r > 0 && TwoAdic(k) == (TwoAdic(r).0, TwoAdic(r).1 + t)
      decreases r
    {
      r := r / 2;
      t := t + 1;
    }
    for i := 0 to 100
      invariant FirstFactor(n, r, t, rng) == FirstFactor(n, r, t, rng[i..])
    {
      assert rng[i..][0] == rng[i] && rng[i..][1..] == rng[i + 1..];
      var g := GenWitness(n, rng[i]);
      if g == None {
        continue;
      }
      var y := ModPow(g.value, r, n);
      if y == 1 || y == n - 1 {
        continue;
      }
      var j := 1;
      while j < t
        invariant y != 1 && y != n - 1 && 0 <= y < n
        invariant 1 <= j && (j <= t || t == 0)
        invariant RunTrial(n, r, t, g.value) == SquareRun(n, y, if t == 0 then 0 else t - j)
      {
        var x := ModPow(y, 2, n);
        if x == 1 {
          RootSplits(n, y);
          var p := Gcd(y - 1, n);
          return Some((p, n / p));
        }
        if x == n - 1 {
          break;
        }
        y := x;
        j := j + 1;
      }
    }
    return None;
  }

  /** A square root of 1 other than 1 and n - 1 splits n: the heart of the method's soundness. */
  lemma RootSplits(n: nat, y: nat)
    requires y < n && y != 1 && y != n - 1 && ModPow(y, 2, n) == 1
    ensures 1 < y && 1 < Gcd(y - 1, n) < n
    ensures Divides(Gcd(y - 1, n), n) && Gcd(y - 1, n) * (n / Gcd(y - 1, n)) == n
  {
    PowTwo(y);
    var p := Gcd(y - 1, n);
    GcdDivides(y - 1, n);
    DividesBound(p, y - 1);
    if p == 1 {
      CongMod(y * y, n);
      UnitFactor(n, y);
      DividesBound(n, y + 1);
    }
    DividesIntro(p, n, n / p);
  }

  lemma PowTwo(y: int)
    ensures Pow(y, 2) == y * y
  {
    assert Pow(y, 2) == y * (y * Pow(y, 0));
  }

  lemma UnitFactor(n: nat, y: nat)
    requires n > 0 && y > 0 && Gcd(y - 1, n) == 1 && Cong(y * y, 1, n)
    ensures Divides(n, y + 1)
  {
    var u, v := Bezout(y - 1, n);
    DividesIntro(n, n * (v * (y + 1)), v * (y + 1));
    DividesCombination(n, y * y - 1, n * (v * (y + 1)), u, 1);
    Spread(y - 1, u, n, v, y + 1);
    assert y * y - 1 == (y - 1) * (y + 1);
  }

  lemma Spread(a: int, u: int, n: int, v: int, w: int)
    requires a * u + n * v == 1
    ensures u * (a * w) + n * (v * w) == w
  {
  }

  // ---------- CRT parameters ----------

  function ComputeCrt(p: nat, q: nat, d: nat): Option<(nat, nat, nat)>
    requires p > 1 && q > 1
  {
    var qi := ModInverse(q, p);
    if qi == None then None else Some((d % (p - 1), d % (q - 1), qi.value))
  }
}
