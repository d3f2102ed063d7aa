/**
 What `recover_primes` (src/crypto.rs) searches for, stated over the random bytes and the powers alone: the first
 of its calls whose witness meets a square root of 1 other than 1 and n - 1 among its t - 1 squarings.
 */
module RsaSearch {
  import opened Bytes
  import opened Congruence
  import opened Primes
  import opened RsaMath
  import opened RsaRecovery
  import RsaWitnesses

  // ---------- settling on a witness ----------

  /** All fills up to k are delivered, those before k give residues 0 or 1, and fill k gives g. */
  predicate Settles(n: nat, fills: seq<Fill>, k: nat, g: nat)
    requires n > 0
  {
    k < |fills| && (forall m :: 0 <= m <= k ==> fills[m].Some?) &&
    (forall m :: 0 <= m < k ==> FromBE(fills[m].value) % n <= 1) && g == FromBE(fills[k].value) % n && g > 1
  }

  lemma {:induction false} WitnessSettles(n: nat, fills: seq<Fill>) returns (k: nat)
    requires n > 0 && Witness(n, fills).Some?
    ensures Settles(n, fills, k, Witness(n, fills).value)
  {
    hide FromBE;
    if FromBE(fills[0].value) % n > 1 {
      k := 0;
    } else {
      var l := WitnessSettles(n, fills[1..]);
      k := l + 1;
      assert forall m :: 0 < m <= k ==> fills[m] == fills[1..][m - 1];
    }
  }

  lemma {:induction false} SettlesIsWitness(n: nat, fills: seq<Fill>, k: nat, g: nat)
    requires n > 0 && Settles(n, fills, k, g)
    ensures Witness(n, fills) == Some(g)
  {
    hide FromBE;
    if k > 0 {
      assert forall m :: 0 <= m < |fills| - 1 ==> fills[1..][m] == fills[m + 1];
      SettlesIsWitness(n, fills[1..], k - 1, g);
    }
  }

  // ---------- meeting a root ----------

  /** Squaring number j turns a power of g that is neither 1 nor n - 1 into 1. */
  predicate SplitsAt(n: nat, r: nat, t: nat, g: nat, j: nat)
    requires n > 0
  {
    1 <= j < t && ModPow(g, r * Two(j), n) == 1 &&
    ModPow(g, r * Two(j - 1), n) != 1 && ModPow(g, r * Two(j - 1), n) != n - 1
  }

  lemma {:induction false} ExponentIs(r: nat, j: nat)
    ensures Exponent(r, j) == r * Two(j)
  {
    if j > 0 {
      ExponentIs(r, j - 1);
      assert 2 * (r * Two(j - 1)) == r * (2 * Two(j - 1));
    }
  }

  /** The prime a root at squaring j gives. */
  ghost predicate Gives(n: nat, r: nat, g: nat, j: nat, p: nat)
    requires n > 0
  {
    j >= 1 && ModPow(g, r * Two(j - 1), n) > 1 && p == Gcd(ModPow(g, r * Two(j - 1), n) - 1, n)
  }

  /** A run that yields a factor met such a root at one of its squarings. */
  lemma {:induction false} RunMeets(n: nat, g: nat, r: nat, t: nat, i: nat, s: nat) returns (j: nat)
    requires n > 2 && i + s < t
    requires ModPow(g, Exponent(r, i), n) != 1 && ModPow(g, Exponent(r, i), n) != n - 1
    requires SquareRun(n, ModPow(g, Exponent(r, i), n), s).Factor?
    ensures SplitsAt(n, r, t, g, j) && Gives(n, r, g, j, SquareRun(n, ModPow(g, Exponent(r, i), n), s).p)
    decreases s
  {
    hide ModPow, Gcd;
    var y := ModPow(g, Exponent(r, i), n);
    SquareStep(g, Exponent(r, i), n);
    ExponentIs(r, i);
    ExponentIs(r, i + 1);
    if ModPow(g, Exponent(r, i + 1), n) == 1 {
      j := i + 1;
      RootSplits(n, y);
    } else {
      j := RunMeets(n, g, r, t, i + 1, s - 1);
    }
  }

  /** A run that starts before such a root, and has squarings enough, yields a factor. */
  lemma {:induction false} RootIsMet(n: nat, g: nat, r: nat, t: nat, i: nat, s: nat, j: nat)
    requires n > 2 && SplitsAt(n, r, t, g, j) && i < j <= i + s
    requires ModPow(g, Exponent(r, i), n) != 1 && ModPow(g, Exponent(r, i), n) != n - 1
    ensures SquareRun(n, ModPow(g, Exponent(r, i), n), s).Factor?
    decreases s
  {
    hide ModPow, Gcd;
    SquareStep(g, Exponent(r, i), n);
    NotBefore(n, g, r, t, i + 1, j);
    ExponentIs(r, i + 1);
    if i + 1 < j {
      RootIsMet(n, g, r, t, i + 1, s - 1, j);
    }
  }

  /** Before the root the powers are neither 1 nor n - 1. */
  lemma NotBefore(n: nat, g: nat, r: nat, t: nat, i: nat, j: nat)
    requires n > 2 && SplitsAt(n, r, t, g, j)
    ensures i < j ==> ModPow(g, Exponent(r, i), n) != 1 && ModPow(g, Exponent(r, i), n) != n - 1
  {
    hide ModPow;
    ExponentIs(r, j - 1);
    if i < j && ModPow(g, Exponent(r, i), n) == 1 {
      RsaWitnesses.StaysOne(n, g, r, i, j - 1);
    }
    if i < j - 1 && ModPow(g, Exponent(r, i), n) == n - 1 {
      RsaWitnesses.OneAfterMinusOne(n, g, r, i);
      RsaWitnesses.StaysOne(n, g, r, i + 1, j - 1);
    }
  }

  lemma TrialMeets(n: nat, r: nat, t: nat, g: nat) returns (j: nat)
    requires n > 2 && RunTrial(n, r, t, g).Factor?
    ensures SplitsAt(n, r, t, g, j) && Gives(n, r, g, j, RunTrial(n, r, t, g).p)
  {
    hide ModPow, Gcd, SquareRun;
    NoSquaringsNoFactor(n, ModPow(g, r, n));
    j := RunMeets(n, g, r, t, 0, t - 1);
  }

  lemma NoSquaringsNoFactor(n: nat, y: nat)
    requires n > 0
    ensures !SquareRun(n, y, 0).Factor?
  {
  }

  lemma RootMakesFactor(n: nat, r: nat, t: nat, g: nat, j: nat)
    requires n > 2 && SplitsAt(n, r, t, g, j)
    ensures RunTrial(n, r, t, g).Factor?
  {
    hide ModPow, SquareRun;
    NotBefore(n, g, r, t, 0, j);
    RootIsMet(n, g, r, t, 0, t - 1, j);
  }

  /** There is at most one such squaring. */
  lemma OneRoot(n: nat, r: nat, t: nat, g: nat, i: nat, j: nat)
    requires n > 2 && SplitsAt(n, r, t, g, i) && SplitsAt(n, r, t, g, j)
    ensures i == j
  {
    hide ModPow;
    ExponentIs(r, i);
    ExponentIs(r, j);
    NotBefore(n, g, r, t, i, j);
    NotBefore(n, g, r, t, j, i);
  }

  // ---------- the calls one after the other ----------

  /** A call settles, with its fill k, on a g that splits n at squaring j. */
  predicate Succeeds(n: nat, r: nat, t: nat, fills: seq<Fill>, k: nat, g: nat, j: nat)
    requires n > 0
  {
    Settles(n, fills, k, g) && SplitsAt(n, r, t, g, j)
  }

  ghost predicate Hopeless(n: nat, r: nat, t: nat, fills: seq<Fill>)
    requires n > 0
  {
    forall k: nat, g: nat, j: nat :: !Succeeds(n, r, t, fills, k, g, j)
  }

  /** Call i is the first to succeed, and f is what its root gives. */
  ghost predicate Found(n: nat, r: nat, t: nat, rng: seq<seq<Fill>>, i: nat, k: nat, g: nat, j: nat, f: (nat, nat))
    requires n > 0
  {
    i < |rng| && Succeeds(n, r, t, rng[i], k, g, j) && (forall m :: 0 <= m < i ==> Hopeless(n, r, t, rng[m])) &&
    Gives(n, r, g, j, f.0) && f.0 * f.1 == n
  }

  lemma CallIff(n: nat, r: nat, t: nat, fills: seq<Fill>)
    requires n > 0
    ensures var g := Witness(n, fills);
            Hopeless(n, r, t, fills) <==> !(g.Some? && RunTrial(n, r, t, g.value).Factor?)
  {
    hide Witness, RunTrial, Settles, SplitsAt;
    forall k: nat, g: nat, j: nat | Succeeds(n, r, t, fills, k, g, j)
      ensures Witness(n, fills) == Some(g) && RunTrial(n, r, t, g).Factor?
    {
      SettlesIsWitness(n, fills, k, g);
      RootMakesFactor(n, r, t, g, j);
    }
    var g := Witness(n, fills);
    if g.Some? && RunTrial(n, r, t, g.value).Factor? {
      var k := WitnessSettles(n, fills);
      var j := TrialMeets(n, r, t, g.value);
      assert Succeeds(n, r, t, fills, k, g.value, j);
    }
  }

  lemma {:induction false} AnswerIsFound(n: nat, r: nat, t: nat, rng: seq<seq<Fill>>)
      returns (i: nat, k: nat, g: nat, j: nat)
    requires n > 0 && FirstFactor(n, r, t, rng).Some?
    ensures Found(n, r, t, rng, i, k, g, j, FirstFactor(n, r, t, rng).value)
  {
    hide Witness, RunTrial, Settles, SplitsAt, Gives, Hopeless;
    CallIff(n, r, t, rng[0]);
    var w := Witness(n, rng[0]);
    if w.Some? && RunTrial(n, r, t, w.value).Factor? {
      FirstFactorSound(n, r, t, rng);
      i, g := 0, w.value;
      k := WitnessSettles(n, rng[0]);
      j := TrialMeets(n, r, t, g);
    } else {
      var m;
      m, k, g, j := AnswerIsFound(n, r, t, rng[1..]);
      i := m + 1;
      assert forall l :: 0 < l <= i ==> rng[l] == rng[1..][l - 1];
    }
  }

  lemma {:induction false} NoAnswerIff(n: nat, r: nat, t: nat, rng: seq<seq<Fill>>)
    requires n > 0
    ensures FirstFactor(n, r, t, rng) == None <==> forall i :: 0 <= i < |rng| ==> Hopeless(n, r, t, rng[i])
  {
    hide Witness, RunTrial, Hopeless;
    if rng != [] {
      CallIff(n, r, t, rng[0]);
      NoAnswerIff(n, r, t, rng[1..]);
      assert forall i :: 0 < i < |rng| ==> rng[i] == rng[1..][i - 1];
      assert forall i :: 0 <= i < |rng| - 1 ==> rng[1..][i] == rng[i + 1];
    }
  }

  lemma FoundIsUnique(n: nat, r: nat, t: nat, rng: seq<seq<Fill>>, i: nat, k: nat, g: nat, j: nat, f: (nat, nat),
                      i': nat, k': nat, g': nat, j': nat, f': (nat, nat))
    requires n > 0 && Found(n, r, t, rng, i, k, g, j, f) && Found(n, r, t, rng, i', k', g', j', f')
    ensures f == f'
  {
    hide SplitsAt, Settles, ModPow, Gcd;
    assert i == i';
    SettlesIsWitness(n, rng[i], k, g);
    SettlesIsWitness(n, rng[i], k', g');
    OneRoot(n, r, t, g, j, j');
    Cancel(f.0, f.1, f'.1);
  }

  /** The split of d * e - 1 is the only one with an odd part. */
  lemma {:induction false} TwoAdicUnique(k: nat, r: nat, t: nat)
    requires k > 0 && k == r * Two(t) && r % 2 == 1
    ensures TwoAdic(k) == (r, t)
    decreases t
  {
    if t > 0 {
      assert r * (2 * Two(t - 1)) == 2 * (r * Two(t - 1));
      TwoAdicUnique(k / 2, r, t - 1);
    }
  }

  /**
   For any modulus and exponents with d e - 1 = r 2^t, r odd, and any random bytes: the answer is (p, q) exactly when
   some call is the first whose witness splits n, and p and q are what its root gives.
   */
  lemma RecoveredIff(n: nat, e: nat, d: nat, rng: seq<seq<Fill>>, r: nat, t: nat, f: (nat, nat))
    requires n > 0 && d * e > 1 && d * e - 1 == r * Two(t) && r % 2 == 1
    ensures Recovered(n, e, d, rng) == Some(f) <==>
              exists i: nat, k: nat, g: nat, j: nat :: Found(n, r, t, rng, i, k, g, j, f)
    ensures Recovered(n, e, d, rng) == None <==>
              forall i: nat, k: nat, g: nat, j: nat :: i < |rng| ==> !Succeeds(n, r, t, rng[i], k, g, j)
  {
    hide FirstFactor, Found, Succeeds, TwoAdic;
    TwoAdicUnique(d * e - 1, r, t);
    NoAnswerIff(n, r, t, rng);
    if Recovered(n, e, d, rng).Some? {
      var i, k, g, j := AnswerIsFound(n, r, t, rng);
      if i': nat, k': nat, g': nat, j': nat :| Found(n, r, t, rng, i', k', g', j', f) {
        FoundIsUnique(n, r, t, rng, i, k, g, j, Recovered(n, e, d, rng).value, i', k', g', j', f);
      }
    } else {
      forall i: nat, k: nat, g: nat, j: nat
        ensures !Found(n, r, t, rng, i, k, g, j, f)
      {
        NotFound(n, r, t, rng, i, k, g, j, f);
      }
    }
  }

  lemma NotFound(n: nat, r: nat, t: nat, rng: seq<seq<Fill>>, i: nat, k: nat, g: nat, j: nat, f: (nat, nat))
    requires n > 0 && forall m :: 0 <= m < |rng| ==> Hopeless(n, r, t, rng[m])
    ensures !Found(n, r, t, rng, i, k, g, j, f)
  {
    hide Succeeds, Gives;
  }
}
