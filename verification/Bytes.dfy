/**
 Bytes, byte strings and the fixed- and variable-width integer encodings the repository uses.
 A Rust `&str` is its UTF-8 byte string, so texts and byte strings share one type.
 */
module Bytes {
  type byte = x: int | 0 <= x < 256
  type bytes = seq<byte>

  datatype Option<+T> = None | Some(value: T)

  datatype Result<+T, +E> = Ok(value: T) | Err(error: E) {
    predicate IsFailure() {
      Err?
    }

    function PropagateFailure<U>(): Result<U, E>
      requires Err?
    {
      Err(error)
    }

    function Extract(): T
      requires Ok?
    {
      value
    }
  }

  /** The byte string of an ASCII literal, as Rust's b"..." */
  function B(s: string): (r: bytes)
    ensures |r| == |s|
  {
    seq(|s|, i requires 0 <= i < |s| => (s[i] as int) % 256)
  }

  /** `BigUint::from_bytes_be` */
  function FromBE(b: bytes): nat {
    if b == [] then 0 else FromBE(b[..|b| - 1]) * 256 + b[|b| - 1]
  }

  /** `BigUint::to_bytes_be`: the shortest big-endian digits, [0] for zero. */
  function ToBE(n: nat): (r: bytes)
    ensures r != []
  {
    if n < 256 then [n] else ToBE(n / 256) + [n % 256]
  }

  /** The `len` low-order big-endian bytes of n. */
  function FixedBE(n: nat, len: nat): (r: bytes)
    ensures |r| == len
  {
    if len == 0 then [] else FixedBE(n / 256, len - 1) + [n % 256]
  }

  /** The `len` low-order little-endian bytes of n. */
  function FixedLE(n: nat, len: nat): (r: bytes)
    ensures |r| == len
  {
    if len == 0 then [] else [n % 256] + FixedLE(n / 256, len - 1)
  }

  function Exp256(len: nat): (r: nat)
    ensures r >= 1
  {
    if len == 0 then 1 else 256 * Exp256(len - 1)
  }

  /** 2^i */
  function Two(i: nat): (r: nat)
    ensures r >= 1
  {
    if i == 0 then 1 else 2 * Two(i - 1)
  }

  lemma {:induction false} FromToBE(n: nat)
    ensures FromBE(ToBE(n)) == n
  {
    if n < 256 {
      assert ToBE(n)[..0] == [];
    } else {
      FromToBE(n / 256);
      var r := ToBE(n);
      assert r[..|r| - 1] == ToBE(n / 256);
    }
  }

  lemma {:induction false} FromFixedBE(n: nat, len: nat)
    ensures FromBE(FixedBE(n, len)) == n % Exp256(len)
  {
    if len == 0 {
    } else {
      FromFixedBE(n / 256, len - 1);
      var r := FixedBE(n, len);
      assert r[..len - 1] == FixedBE(n / 256, len - 1);
      ModSplit(n, Exp256(len - 1));
    }
  }

  lemma ModSplit(n: nat, m: nat)
    requires m > 0
    ensures n % (256 * m) == ((n / 256) % m) * 256 + n % 256
  {
    var a, b := n / 256, n % 256;
    var q, h := a / m, a % m;
    assert a == m * q + h;
    assert n == (256 * m) * q + (h * 256 + b) by {
      assert 256 * (m * q) == (256 * m) * q;
    }
    ModUnique(n, 256 * m, q, h * 256 + b);
  }

  lemma ModUnique(x: int, m: int, q: int, r: int)
    requires m > 0 && 0 <= r < m && x == m * q + r
    ensures x % m == r
  {
    var k := x / m - q;
    assert m * k == r - x % m;
    assert k >= 1 ==> m * k >= m;
    assert k <= -1 ==> m * k <= -m;
  }

  /** Fixed-width encodings of in-range numbers are injective. */
  lemma FixedBEInjective(a: nat, b: nat, len: nat)
    requires a < Exp256(len) && b < Exp256(len) && FixedBE(a, len) == FixedBE(b, len)
    ensures a == b
  {
    FromFixedBE(a, len);
    FromFixedBE(b, len);
  }

  lemma {:induction false} FromBEBound(b: bytes)
    ensures FromBE(b) < Exp256(|b|)
  {
    if b == [] {
    } else {
      FromBEBound(b[..|b| - 1]);
    }
  }

  lemma {:induction false} FromBELeadingZero(b: bytes)
    ensures FromBE([0] + b) == FromBE(b)
  {
    if b == [] {
      assert ([0] + b)[..0] == [];
    } else {
      FromBELeadingZero(b[..|b| - 1]);
      assert ([0] + b)[..|b|] == [0] + b[..|b| - 1];
    }
  }

  /** Digits without a leading zero are the shortest digits of their value. */
  lemma {:induction false} ShortestDigits(b: bytes)
    requires b != [] && (|b| == 1 || b[0] != 0)
    ensures ToBE(FromBE(b)) == b
    ensures |b| > 1 ==> FromBE(b) >= 256
  {
    var init := b[..|b| - 1];
    if |b| == 1 {
      assert init == [];
    } else {
      if |init| > 1 || init[0] != 0 {
        ShortestDigits(init);
        assert init[..|init| - 1] == [] ==> FromBE(init) == init[0];
        assert FromBE(init) >= 1;
      }
      assert FromBE(b) / 256 == FromBE(init) && FromBE(b) % 256 == b[|b| - 1];
      assert b == init + [b[|b| - 1]];
    }
  }

  lemma {:induction false} ToBELeading(n: nat)
    ensures ToBE(n)[0] == 0 ==> n == 0
  {
    if n >= 256 {
      ToBELeading(n / 256);
    }
  }

  // ---------- what the encodings say, digit by digit ----------

  /** The value of little-endian digits. */
  function FromLE(b: bytes): nat {
    if b == [] then 0 else b[0] + 256 * FromLE(b[1..])
  }

  lemma {:induction false} FromFixedLE(n: nat, len: nat)
    ensures FromLE(FixedLE(n, len)) == n % Exp256(len)
  {
    if len > 0 {
      FromFixedLE(n / 256, len - 1);
      assert FixedLE(n, len)[1..] == FixedLE(n / 256, len - 1);
      ModSplit(n, Exp256(len - 1));
    }
  }

  lemma {:induction false} FixedLEOfFrom(b: bytes)
    ensures FixedLE(FromLE(b), |b|) == b && FromLE(b) < Exp256(|b|)
  {
    if b != [] {
      FixedLEOfFrom(b[1..]);
      assert b == [b[0]] + b[1..];
    }
  }

  /** Dividing twice is dividing by the product. */
  lemma DivDiv(n: nat, a: nat, b: nat)
    requires a > 0 && b > 0
    ensures a * b > 0 && n / a / b == n / (a * b)
  {
    var q, r := n / a, n % a;
    var k, l := q / b, q % b;
    TwoSteps(n, a, b, q, r, k, l);
    DivUnique(n, a * b, k, a * l + r);
  }

  lemma TwoSteps(n: int, a: int, b: int, q: int, r: int, k: int, l: int)
    requires n == a * q + r && q == b * k + l && 0 <= r < a && 0 <= l < b
    ensures n == (a * b) * k + (a * l + r) && 0 <= a * l + r < a * b
  {
    assert a * q == (a * b) * k + a * l by {
      assert a * (b * k) == (a * b) * k;
    }
    MulBound(a, l, b - 1);
  }

  lemma MulBound(a: int, l: int, b: int)
    requires 0 < a && 0 <= l <= b
    ensures 0 <= a * l <= a * b && a * (b + 1) == a * b + a
  {
  }

  lemma DivUnique(x: int, m: int, q: int, r: int)
    requires m > 0 && 0 <= r < m && x == m * q + r
    ensures x / m == q
  {
    var k := x / m - q;
    assert m * k == r - x % m;
    assert k >= 1 ==> m * k >= m;
    assert k <= -1 ==> m * k <= -m;
  }

  /** Little-endian: octet i has weight 256^i. */
  lemma {:induction false} FixedLEAt(n: nat, len: nat, i: nat)
    requires i < len
    ensures FixedLE(n, len)[i] == n / Exp256(i) % 256
  {
    if i > 0 {
      FixedLEAt(n / 256, len - 1, i - 1);
      DivDiv(n, 256, Exp256(i - 1));
    }
  }

  /** Big-endian: octet i has weight 256^(len - 1 - i). */
  lemma {:induction false} FixedBEAt(n: nat, len: nat, i: nat)
    requires i < len
    ensures FixedBE(n, len)[i] == n / Exp256(len - 1 - i) % 256
  {
    if i < len - 1 {
      FixedBEAt(n / 256, len - 1, i);
      DivDiv(n, 256, Exp256(len - 2 - i));
    }
  }

  /** Digits of a fixed width are the digits of their value. */
  lemma {:induction false} FixedOfFrom(b: bytes)
    ensures FixedBE(FromBE(b), |b|) == b
  {
    if b != [] {
      FixedOfFrom(b[..|b| - 1]);
      assert b == b[..|b| - 1] + [b[|b| - 1]];
    }
  }
}
