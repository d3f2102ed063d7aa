/** The key derivation loops of src/crypto.rs against the standards they implement. */
module Kdf {
  import opened Bytes

  /** A keyed hash: HMAC, as (key, message). */
  type Prf = (bytes, bytes) -> bytes

  ghost predicate PrfLength(prf: Prf, h: nat) {
    forall k, m :: |prf(k, m)| == h
  }

  // ---------- block streams ----------

  /** The concatenation f(1) f(2) ... f(n). */
  function Blocks(f: nat -> bytes, n: nat): bytes {
    if n == 0 then [] else Blocks(f, n - 1) + f(n)
  }

  function BlockCount(len: nat, h: nat): nat
    requires h > 0
  {
    (len + h - 1) / h
  }

  /** The first len bytes of the stream of h-byte blocks. */
  function Output(f: nat -> bytes, h: nat, len: nat): bytes
    requires h > 0
  {
    var s := Blocks(f, BlockCount(len, h));
    if len <= |s| then s[..len] else s
  }

  /** Every block of the stream has h bytes. */
  ghost predicate BlockStream(f: nat -> bytes, h: nat) {
    forall i: nat :: i >= 1 ==> |f(i)| == h
  }

  lemma {:induction false} BlocksLength(f: nat -> bytes, h: nat, n: nat)
    requires BlockStream(f, h)
    ensures |Blocks(f, n)| == h * n
  {
    if n > 0 {
      BlocksLength(f, h, n - 1);
      assert h * n == h * (n - 1) + h;
    }
  }

  lemma {:induction false} BlocksPrefix(f: nat -> bytes, m: nat, n: nat)
    requires m <= n
    ensures |Blocks(f, m)| <= |Blocks(f, n)| && Blocks(f, n)[..|Blocks(f, m)|] == Blocks(f, m)
  {
    if m < n {
      BlocksPrefix(f, m, n - 1);
      var a, b := Blocks(f, n - 1), f(n);
      assert (a + b)[..|Blocks(f, m)|] == a[..|Blocks(f, m)|];
    }
  }

  lemma BlockCountCovers(len: nat, h: nat)
    requires h > 0
    ensures h * BlockCount(len, h) >= len
  {
  }

  /** Any number of blocks that covers len gives the same first len bytes. */
  lemma OutputFromBlocks(f: nat -> bytes, h: nat, len: nat, n: nat)
    requires h > 0 && |Blocks(f, n)| >= len && BlockStream(f, h)
    ensures Output(f, h, len) == Blocks(f, n)[..len] && |Output(f, h, len)| == len
  {
    var c := BlockCount(len, h);
    BlockCountCovers(len, h);
    BlocksLength(f, h, c);
    if c <= n {
      BlocksPrefix(f, c, n);
      assert Blocks(f, n)[..|Blocks(f, c)|][..len] == Blocks(f, n)[..len];
    } else {
      BlocksPrefix(f, n, c);
      assert Blocks(f, c)[..|Blocks(f, n)|][..len] == Blocks(f, c)[..len];
    }
  }

  /** A shorter output is a prefix of a longer one. */
  lemma OutputPrefix(f: nat -> bytes, h: nat, short: nat, long: nat)
    requires h > 0 && short <= long && BlockStream(f, h)
    ensures |Output(f, h, long)| == long && Output(f, h, long)[..short] == Output(f, h, short)
  {
    var n := BlockCount(long, h);
    BlockCountCovers(long, h);
    BlocksLength(f, h, n);
    OutputFromBlocks(f, h, long, n);
    OutputFromBlocks(f, h, short, n);
    assert Blocks(f, n)[..long][..short] == Blocks(f, n)[..short];
  }

  lemma {:induction false} BlocksAt(f: nat -> bytes, h: nat, n: nat, pos: nat)
    requires h > 0 && BlockStream(f, h) && pos < h * n
    ensures |Blocks(f, n)| == h * n && pos % h < |f(pos / h + 1)|
    ensures Blocks(f, n)[pos] == f(pos / h + 1)[pos % h]
  {
    BlocksLength(f, h, n);
    BlocksLength(f, h, n - 1);
    if pos < h * (n - 1) {
      BlocksAt(f, h, n - 1, pos);
    } else {
      assert h * n == h * (n - 1) + h;
      DivUnique(pos, h, n - 1, pos - h * (n - 1));
      ModUnique(pos, h, n - 1, pos - h * (n - 1));
    }
  }

  /** Each byte of an output is a byte of its block. */
  lemma OutputAt(f: nat -> bytes, h: nat, len: nat, pos: nat)
    requires h > 0 && BlockStream(f, h) && pos < len
    ensures |Output(f, h, len)| == len && pos % h < |f(pos / h + 1)|
    ensures Output(f, h, len)[pos] == f(pos / h + 1)[pos % h]
  {
    hide BlockStream;
    var n := BlockCount(len, h);
    BlockCountCovers(len, h);
    BlocksLength(f, h, n);
    OutputFromBlocks(f, h, len, n);
    BlocksAt(f, h, n, pos);
  }

  lemma OutputSized(f: nat -> bytes, h: nat, len: nat)
    requires h > 0 && BlockStream(f, h)
    ensures |Output(f, h, len)| == len
  {
    var n := BlockCount(len, h);
    BlockCountCovers(len, h);
    BlocksLength(f, h, n);
  }

  // ---------- HKDF (RFC 5869, section 2.3) ----------

  /** T(0) is empty and T(i) = HMAC(PRK, T(i-1) | info | octet i). */
  function HkdfT(hmac: Prf, prk: bytes, info: bytes, i: nat): bytes {
    if i == 0 then [] else hmac(prk, HkdfT(hmac, prk, info, i - 1) + info + [i % 256])
  }

  function HkdfStream(hmac: Prf, prk: bytes, info: bytes): nat -> bytes {
    (i: nat) => HkdfT(hmac, prk, info, i)
  }

  /** Extract-and-expand, for at most 255 blocks, where the octet of block i is i itself. */
  function Hkdf(hmac: Prf, ikm: bytes, salt: bytes, info: bytes, length: nat): bytes {
    Output(HkdfStream(hmac, hmac(salt, ikm), info), 32, length)
  }

  /** t[0] is empty and t[i] is the HMAC of t[i-1], info and the octet i. */
  ghost predicate HkdfChain(hmac: Prf, prk: bytes, info: bytes, t: seq<bytes>) {
    t != [] && t[0] == [] && forall i :: 0 < i < |t| ==> t[i] == hmac(prk, t[i - 1] + info + [i % 256])
  }

  /** Every octet is found in its block of 32, whatever chain of extracted key and info reaches that far. */
  ghost predicate IsHkdf(hmac: Prf, secret: bytes, salt: bytes, info: bytes, okm: bytes) {
    forall t: seq<bytes>, pos: nat :: pos < |okm| && HkdfChain(hmac, hmac(salt, secret), info, t) ==>
      var i := pos / 32 + 1; i < |t| ==> pos % 32 < |t[i]| && okm[pos] == t[i][pos % 32]
  }

  lemma {:induction false} ChainIsHkdfT(hmac: Prf, prk: bytes, info: bytes, t: seq<bytes>, i: nat)
    requires HkdfChain(hmac, prk, info, t) && i < |t|
    ensures t[i] == HkdfT(hmac, prk, info, i)
  {
    if i > 0 {
      ChainIsHkdfT(hmac, prk, info, t, i - 1);
    }
  }

  lemma HkdfByBlocks(hmac: Prf, secret: bytes, salt: bytes, info: bytes, length: nat)
    requires PrfLength(hmac, 32)
    ensures IsHkdf(hmac, secret, salt, info, Hkdf(hmac, secret, salt, info, length))
  {
    hide PrfLength, BlockStream, HkdfT, Output, HkdfChain;
    var prk, okm := hmac(salt, secret), Hkdf(hmac, secret, salt, info, length);
    HkdfSized(hmac, prk, info);
    OutputSized(HkdfStream(hmac, prk, info), 32, length);
    forall t: seq<bytes>, pos: nat | pos < |okm| && HkdfChain(hmac, prk, info, t) && pos / 32 + 1 < |t|
      ensures pos % 32 < |t[pos / 32 + 1]| && okm[pos] == t[pos / 32 + 1][pos % 32]
    {
      OutputAt(HkdfStream(hmac, prk, info), 32, length, pos);
      ChainIsHkdfT(hmac, prk, info, t, pos / 32 + 1);
    }
  }

  lemma ChainOfHkdfT(hmac: Prf, prk: bytes, info: bytes, n: nat) returns (t: seq<bytes>)
    ensures |t| == n + 1 && HkdfChain(hmac, prk, info, t)
  {
    t := seq(n + 1, i requires 0 <= i <= n => HkdfT(hmac, prk, info, i));
  }

  /** Nothing else of its length has these octets. */
  lemma HkdfOnly(hmac: Prf, secret: bytes, salt: bytes, info: bytes, okm: bytes)
    requires PrfLength(hmac, 32) && IsHkdf(hmac, secret, salt, info, okm)
    ensures okm == Hkdf(hmac, secret, salt, info, |okm|)
  {
    hide PrfLength, HkdfT, Output, HkdfChain;
    var prk := hmac(salt, secret);
    HkdfByBlocks(hmac, secret, salt, info, |okm|);
    HkdfSized(hmac, prk, info);
    OutputSized(HkdfStream(hmac, prk, info), 32, |okm|);
    forall pos: nat | pos < |okm|
      ensures okm[pos] == Hkdf(hmac, secret, salt, info, |okm|)[pos]
    {
      var t := ChainOfHkdfT(hmac, prk, info, pos / 32 + 1);
    }
  }

  /**
   The counter is a u8: the increment after block 255 leaves its range (it wraps in a release build and
   traps in a checked one), so the caller must not ask for more than 255 blocks in a checked build.
   */
  method HkdfSha256(hmac: Prf, secret: bytes, salt: bytes, info: bytes, length: nat) returns (okm: bytes)
    requires PrfLength(hmac, 32)
    ensures okm == Hkdf(hmac, secret, salt, info, length) && |okm| == length
    ensures IsHkdf(hmac, secret, salt, info, okm)
  {
    hide IsHkdf, PrfLength, BlockStream, HkdfT, HkdfStream, Output;
    var prk := hmac(salt, secret);
    ghost var f := HkdfStream(hmac, prk, info);
    HkdfSized(hmac, prk, info);
    okm := [];
    var lastT: bytes := [];
    HkdfStart(hmac, prk, info);
    var counter: byte := 1;
    ghost var i := 0;
    while |okm| < length
      invariant okm == Blocks(f, i) && |okm| == 32 * i && lastT == HkdfT(hmac, prk, info, i)
      invariant counter == (i + 1) % 256
      decreases length - |okm|
    {
      HkdfStep(hmac, prk, info, i);
      lastT := hmac(prk, lastT + info + [counter]);
      i := i + 1;
      okm := okm + lastT;
      CounterStep(counter, i);
      counter := (counter + 1) % 256;
    }
    OutputFromBlocks(f, 32, length, i);
    HkdfByBlocks(hmac, secret, salt, info, length);
    okm := okm[..length];
  }

  lemma CounterStep(counter: int, i: int)
    requires counter == i % 256
    ensures (counter + 1) % 256 == (i + 1) % 256
  {
  }

  lemma HkdfStart(hmac: Prf, prk: bytes, info: bytes)
    ensures HkdfT(hmac, prk, info, 0) == []
  {
  }

  lemma HkdfStep(hmac: Prf, prk: bytes, info: bytes, i: nat)
    requires PrfLength(hmac, 32)
    ensures HkdfStream(hmac, prk, info)(i + 1) == hmac(prk, HkdfT(hmac, prk, info, i) + info + [(i + 1) % 256])
    ensures |HkdfStream(hmac, prk, info)(i + 1)| == 32
    ensures HkdfStream(hmac, prk, info)(i + 1) == HkdfT(hmac, prk, info, i + 1)
  {
  }

  lemma HkdfSized(hmac: Prf, prk: bytes, info: bytes)
    requires PrfLength(hmac, 32)
    ensures BlockStream(HkdfStream(hmac, prk, info), 32)
  {
  }

  // ---------- Concat KDF (RFC 7518, section 4.6.2) ----------

  /** A field preceded by its 32-bit length. */
  function Sized(x: bytes): bytes {
    FixedBE(|x|, 4) + x
  }

  function OtherInfo(alg: bytes, partyU: bytes, partyV: bytes, bits: nat): bytes {
    Sized(alg) + (Sized(partyU) + (Sized(partyV) + FixedBE(bits, 4)))
  }

  function ConcatStream(sha256: bytes -> bytes, z: bytes, info: bytes): nat -> bytes {
    (i: nat) => sha256(FixedBE(i, 4) + z + info)
  }

  function ConcatKdf(sha256: bytes -> bytes, z: bytes, bits: nat, alg: bytes, partyU: bytes, partyV: bytes): bytes {
    Output(ConcatStream(sha256, z, OtherInfo(alg, partyU, partyV, bits)), 32, bits / 8)
  }

  /** The four octets of n modulo 2^32, highest first. */
  predicate Be32(b: bytes, n: nat) {
    |b| == 4 && FromBE(b) == n % 0x1_0000_0000
  }

  lemma Be32Only(b: bytes, n: nat)
    ensures Be32(b, n) <==> b == FixedBE(n, 4)
  {
    hide FixedBE, FromBE;
    FromFixedBE(n, 4);
    Width4();
    FixedOfFrom(b);
    FixedOfFrom(FixedBE(n, 4));
  }

  /** AlgorithmID, PartyUInfo, PartyVInfo, each behind its length, and SuppPubInfo. */
  ghost predicate IsOtherInfo(info: bytes, alg: bytes, partyU: bytes, partyV: bytes, bits: nat) {
    exists la, lu, lv, k :: Be32(la, |alg|) && Be32(lu, |partyU|) && Be32(lv, |partyV|) && Be32(k, bits) &&
      info == la + alg + lu + partyU + lv + partyV + k
  }

  /** Every octet is found in the hash of its block number, Z and OtherInfo. */
  ghost predicate IsConcatKdf(sha256: bytes -> bytes, z: bytes, bits: nat, alg: bytes, partyU: bytes, partyV: bytes,
                              out: bytes)
  {
    forall pos: nat, ix, info :: pos < |out| && Be32(ix, pos / 32 + 1) && IsOtherInfo(info, alg, partyU, partyV, bits)
      ==> pos % 32 < |sha256(ix + z + info)| && out[pos] == sha256(ix + z + info)[pos % 32]
  }

  lemma OtherInfoIs(info: bytes, alg: bytes, partyU: bytes, partyV: bytes, bits: nat)
    ensures IsOtherInfo(info, alg, partyU, partyV, bits) <==> info == OtherInfo(alg, partyU, partyV, bits)
  {
    hide Be32, FixedBE;
    var la, lu, lv, k := FixedBE(|alg|, 4), FixedBE(|partyU|, 4), FixedBE(|partyV|, 4), FixedBE(bits, 4);
    Be32Only(la, |alg|);
    Be32Only(lu, |partyU|);
    Be32Only(lv, |partyV|);
    Be32Only(k, bits);
    InfoRegroup(alg, partyU, partyV, la, lu, lv, k);
    if la', lu', lv', k' :| Be32(la', |alg|) && Be32(lu', |partyU|) && Be32(lv', |partyV|) && Be32(k', bits) &&
                            info == la' + alg + lu' + partyU + lv' + partyV + k' {
      Be32Only(la', |alg|);
      Be32Only(lu', |partyU|);
      Be32Only(lv', |partyV|);
      Be32Only(k', bits);
    }
  }

  lemma ConcatByBlocks(sha256: bytes -> bytes, z: bytes, bits: nat, alg: bytes, partyU: bytes, partyV: bytes)
    requires forall m :: |sha256(m)| == 32
    ensures IsConcatKdf(sha256, z, bits, alg, partyU, partyV, ConcatKdf(sha256, z, bits, alg, partyU, partyV))
  {
    hide Be32, IsOtherInfo, OtherInfo, Output, BlockStream, FixedBE;
    var f := ConcatStream(sha256, z, OtherInfo(alg, partyU, partyV, bits));
    var out := ConcatKdf(sha256, z, bits, alg, partyU, partyV);
    ConcatSized(sha256, z, OtherInfo(alg, partyU, partyV, bits));
    OutputSized(f, 32, bits / 8);
    forall pos: nat, ix, info
      | pos < |out| && Be32(ix, pos / 32 + 1) && IsOtherInfo(info, alg, partyU, partyV, bits)
      ensures pos % 32 < |sha256(ix + z + info)| && out[pos] == sha256(ix + z + info)[pos % 32]
    {
      OutputAt(f, 32, bits / 8, pos);
      Be32Only(ix, pos / 32 + 1);
      OtherInfoIs(info, alg, partyU, partyV, bits);
    }
  }

  /** Nothing else of its length has these octets. */
  lemma ConcatOnly(sha256: bytes -> bytes, z: bytes, bits: nat, alg: bytes, partyU: bytes, partyV: bytes, out: bytes)
    requires (forall m :: |sha256(m)| == 32) && |out| == bits / 8
    requires IsConcatKdf(sha256, z, bits, alg, partyU, partyV, out)
    ensures out == ConcatKdf(sha256, z, bits, alg, partyU, partyV)
  {
    hide Be32, IsOtherInfo, OtherInfo, Output, FixedBE;
    var info := OtherInfo(alg, partyU, partyV, bits);
    var full := ConcatKdf(sha256, z, bits, alg, partyU, partyV);
    ConcatByBlocks(sha256, z, bits, alg, partyU, partyV);
    ConcatSized(sha256, z, info);
    OutputSized(ConcatStream(sha256, z, info), 32, bits / 8);
    OtherInfoIs(info, alg, partyU, partyV, bits);
    forall pos: nat | pos < |out|
      ensures out[pos] == full[pos]
    {
      var ix := FixedBE(pos / 32 + 1, 4);
      Be32Only(ix, pos / 32 + 1);
      assert out[pos] == sha256(ix + z + info)[pos % 32];
    }
  }

  method ConcatKdfSha256(sha256: bytes -> bytes, z: bytes, bits: nat, alg: bytes, partyU: bytes, partyV: bytes)
      returns (out: bytes)
    requires bits < 0x1_0000_0000 && forall m :: |sha256(m)| == 32
    ensures out == ConcatKdf(sha256, z, bits, alg, partyU, partyV) && |out| == bits / 8
    ensures IsConcatKdf(sha256, z, bits, alg, partyU, partyV, out)
  {
    hide FixedBE, IsConcatKdf;
    ConcatByBlocks(sha256, z, bits, alg, partyU, partyV);
    var target := bits / 8;
    var other := FixedBE(|alg|, 4) + alg;
    other := other + FixedBE(|partyU|, 4);
    other := other + partyU;
    other := other + FixedBE(|partyV|, 4);
    other := other + partyV;
    other := other + FixedBE(bits, 4);
    InfoRegroup(alg, partyU, partyV, FixedBE(|alg|, 4), FixedBE(|partyU|, 4), FixedBE(|partyV|, 4), FixedBE(bits, 4));
    ghost var f := ConcatStream(sha256, z, other);
    ConcatSized(sha256, z, other);
    out := [];
    var counter := 1;
    while |out| < target
      invariant counter >= 1 && out == Blocks(f, counter - 1) && |out| == 32 * (counter - 1)
      decreases target - |out|
    {
      var digest := sha256(FixedBE(counter, 4) + z + other);
      assert f(counter) == digest;
      out := out + digest;
      counter := counter + 1;
    }
    OutputFromBlocks(f, 32, target, counter - 1);
    out := out[..target];
  }

  lemma ConcatSized(sha256: bytes -> bytes, z: bytes, info: bytes)
    requires forall m :: |sha256(m)| == 32
    ensures BlockStream(ConcatStream(sha256, z, info), 32)
  {
    forall i: nat
      ensures |ConcatStream(sha256, z, info)(i)| == 32
    {
      assert ConcatStream(sha256, z, info)(i) == sha256(FixedBE(i, 4) + z + info);
    }
  }

  lemma InfoRegroup(a: bytes, u: bytes, v: bytes, la: bytes, lu: bytes, lv: bytes, k: bytes)
    ensures la + a + lu + u + lv + v + k == (la + a) + ((lu + u) + ((lv + v) + k))
  {
  }

  lemma SizedInjective(x: bytes, r: bytes, y: bytes, s: bytes)
    requires |x| < 0x1_0000_0000 && |y| < 0x1_0000_0000 && Sized(x) + r == Sized(y) + s
    ensures x == y && r == s
  {
    var a, b := Sized(x) + r, Sized(y) + s;
    Width4();
    assert a[..4] == FixedBE(|x|, 4) && b[..4] == FixedBE(|y|, 4);
    FixedBEInjective(|x|, |y|, 4);
    assert a[4..4 + |x|] == x && b[4..4 + |y|] == y;
    assert a[4 + |x|..] == r && b[4 + |y|..] == s;
  }

  lemma Width4()
    ensures Exp256(4) == 0x1_0000_0000
  {
  }

  /** Different derivation contexts hash different inputs. */
  lemma OtherInfoInjective(a: bytes, u: bytes, v: bytes, k: nat, a': bytes, u': bytes, v': bytes, k': nat)
    requires |a| < 0x1_0000_0000 && |u| < 0x1_0000_0000 && |v| < 0x1_0000_0000 && k < 0x1_0000_0000
    requires |a'| < 0x1_0000_0000 && |u'| < 0x1_0000_0000 && |v'| < 0x1_0000_0000 && k' < 0x1_0000_0000
    requires OtherInfo(a, u, v, k) == OtherInfo(a', u', v', k')
    ensures a == a' && u == u' && v == v' && k == k'
  {
    hide Sized, FixedBE;
    SizedInjective(a, Sized(u) + (Sized(v) + FixedBE(k, 4)), a', Sized(u') + (Sized(v') + FixedBE(k', 4)));
    SizedInjective(u, Sized(v) + FixedBE(k, 4), u', Sized(v') + FixedBE(k', 4));
    SizedInjective(v, FixedBE(k, 4), v', FixedBE(k', 4));
    Width4();
    FixedBEInjective(k, k', 4);
  }

  // ---------- PBKDF2 (RFC 8018, section 5.2) ----------

  /** The low k bits of the exclusive or, bit by bit. */
  function XorBits(a: nat, b: nat, k: nat): (r: nat)
    ensures r < Two(k)
  {
    if k == 0 then 0 else (a + b) % 2 + 2 * XorBits(a / 2, b / 2, k - 1)
  }

  /** `^` on u8 */
  function Xor(a: byte, b: byte): byte {
    EightBits();
    XorBits(a, b, 8)
  }

  lemma EightBits()
    ensures Two(8) == 256
  {
    assert Two(4) == 16;
  }

  /** Bit i of a number. */
  function Bit(a: nat, i: nat): nat {
    a / Two(i) % 2
  }

  lemma XorBitsStep(a: nat, b: nat, k: nat)
    requires k > 0
    ensures XorBits(a, b, k) % 2 == (a + b) % 2 && XorBits(a, b, k) / 2 == XorBits(a / 2, b / 2, k - 1)
  {
  }

  lemma LowBit(a: nat)
    ensures Bit(a, 0) == a % 2
  {
  }

  lemma NextBit(a: nat, i: nat)
    requires i > 0
    ensures Bit(a, i) == Bit(a / 2, i - 1)
  {
    DivDiv(a, 2, Two(i - 1));
  }

  lemma {:induction false} XorBitsAt(a: nat, b: nat, k: nat, i: nat)
    requires i < k
    ensures Bit(XorBits(a, b, k), i) == (Bit(a, i) + Bit(b, i)) % 2
  {
    hide XorBits, Bit;
    XorBitsStep(a, b, k);
    if i == 0 {
      LowBit(XorBits(a, b, k));
      LowBit(a);
      LowBit(b);
      SumParity(a, b);
    } else {
      XorBitsAt(a / 2, b / 2, k - 1, i - 1);
      NextBit(XorBits(a, b, k), i);
      NextBit(a, i);
      NextBit(b, i);
    }
  }

  lemma SumParity(a: int, b: int)
    ensures (a % 2 + b % 2) % 2 == (a + b) % 2
  {
  }

  /** Each bit of the exclusive or is the parity of the two bits. */
  lemma XorParity(a: byte, b: byte, i: nat)
    requires i < 8
    ensures Xor(a, b) / Two(i) % 2 == (a / Two(i) + b / Two(i)) % 2
  {
    hide XorBits, Two;
    XorBitsAt(a, b, 8, i);
    SumParity(a / Two(i), b / Two(i));
  }

  function XorBytes(a: bytes, b: bytes): (r: bytes)
    ensures |r| == |a|
  {
    seq(|a|, i requires 0 <= i < |a| => if i < |b| then Xor(a[i], b[i]) else a[i])
  }

  /** U_1 = PRF(P, S | INT(i)) and U_j = PRF(P, U_{j-1}). */
  function PbkdfU(prf: Prf, password: bytes, salt: bytes, i: nat, j: nat): bytes
    requires j >= 1
  {
    if j == 1 then prf(password, salt + FixedBE(i, 4)) else prf(password, PbkdfU(prf, password, salt, i, j - 1))
  }

  /** T_i = U_1 xor U_2 xor ... xor U_c. */
  function PbkdfT(prf: Prf, password: bytes, salt: bytes, c: nat, i: nat): bytes
    requires c >= 1
  {
    if c == 1 then PbkdfU(prf, password, salt, i, 1)
    else XorBytes(PbkdfT(prf, password, salt, c - 1, i), PbkdfU(prf, password, salt, i, c))
  }

  function PbkdfStream(prf: Prf, password: bytes, salt: bytes, c: nat): nat -> bytes
    requires c >= 1
  {
    (i: nat) => PbkdfT(prf, password, salt, c, i)
  }

  lemma {:induction false} PbkdfLength(prf: Prf, h: nat, password: bytes, salt: bytes, c: nat, i: nat)
    requires PrfLength(prf, h) && c >= 1
    ensures |PbkdfT(prf, password, salt, c, i)| == h
  {
    if c > 1 {
      PbkdfLength(prf, h, password, salt, c - 1, i);
    }
  }

  /** The iteration count the loops honour: none counts as one. */
  function Rounds(iterations: nat): nat {
    if iterations == 0 then 1 else iterations
  }

  /** u holds U_1, U_2, ... for the block with index octets ix. */
  ghost predicate PbkdfChain(prf: Prf, password: bytes, salt: bytes, ix: bytes, u: seq<bytes>) {
    u != [] && u[0] == prf(password, salt + ix) && forall j :: 0 < j < |u| ==> u[j] == prf(password, u[j - 1])
  }

  /** The parity of bit i over octet k of every member. */
  function Parity(u: seq<bytes>, k: nat, i: nat): nat
    requires forall m :: m in u ==> k < |m|
  {
    if u == [] then 0 else (Parity(u[..|u| - 1], k, i) + u[|u| - 1][k] / Two(i)) % 2
  }

  /** Bit i of every octet is the parity of that bit over the c members of the chain of its block. */
  ghost predicate IsPbkdf2(prf: Prf, h: nat, password: bytes, salt: bytes, c: nat, out: bytes)
    requires h > 0
  {
    forall pos: nat, ix, u: seq<bytes>, i: nat ::
      pos < |out| && i < 8 && Be32(ix, pos / h + 1) && |u| == c && PbkdfChain(prf, password, salt, ix, u) &&
      (forall m :: m in u ==> |m| == h)
      ==> out[pos] / Two(i) % 2 == Parity(u, pos % h, i)
  }

  /** The same for the one block with the given index. */
  ghost predicate IsBlock(prf: Prf, h: nat, password: bytes, salt: bytes, c: nat, index: nat, block: bytes) {
    |block| == h &&
    forall ix, u: seq<bytes>, k: nat, i: nat ::
      k < h && i < 8 && Be32(ix, index) && |u| == c && PbkdfChain(prf, password, salt, ix, u) &&
      (forall m :: m in u ==> |m| == h)
      ==> block[k] / Two(i) % 2 == Parity(u, k, i)
  }

  lemma {:induction false} ChainIsU(prf: Prf, password: bytes, salt: bytes, i: nat, u: seq<bytes>, j: nat)
    requires PbkdfChain(prf, password, salt, FixedBE(i, 4), u) && j < |u|
    ensures u[j] == PbkdfU(prf, password, salt, i, j + 1)
  {
    if j > 0 {
      ChainIsU(prf, password, salt, i, u, j - 1);
    }
  }

  lemma ShorterChain(prf: Prf, h: nat, password: bytes, salt: bytes, ix: bytes, u: seq<bytes>)
    requires PbkdfChain(prf, password, salt, ix, u) && |u| > 1 && forall m :: m in u ==> |m| == h
    ensures PbkdfChain(prf, password, salt, ix, u[..|u| - 1]) && forall m :: m in u[..|u| - 1] ==> |m| == h
  {
  }

  lemma {:induction false} ParityOfT(prf: Prf, h: nat, password: bytes, salt: bytes, index: nat, u: seq<bytes>, k: nat,
                                     i: nat)
    requires PrfLength(prf, h) && PbkdfChain(prf, password, salt, FixedBE(index, 4), u)
    requires u != [] && k < h && i < 8 && forall m :: m in u ==> |m| == h
    ensures |PbkdfT(prf, password, salt, |u|, index)| == h
    ensures PbkdfT(prf, password, salt, |u|, index)[k] / Two(i) % 2 == Parity(u, k, i)
  {
    hide Xor, Two, FixedBE, PbkdfU, PrfLength, PbkdfChain;
    var c := |u|;
    PbkdfLength(prf, h, password, salt, c, index);
    ChainIsU(prf, password, salt, index, u, c - 1);
    if c == 1 {
      assert u[..0] == [] && u[0][k] == PbkdfT(prf, password, salt, 1, index)[k];
    } else {
      ShorterChain(prf, h, password, salt, FixedBE(index, 4), u);
      ParityOfT(prf, h, password, salt, index, u[..c - 1], k, i);
      var t := PbkdfT(prf, password, salt, c - 1, index);
      XorParity(t[k], u[c - 1][k], i);
      SumMod(t[k] / Two(i), u[c - 1][k] / Two(i));
    }
  }

  lemma SumMod(a: int, b: int)
    ensures (a + b) % 2 == (a % 2 + b) % 2
  {
  }

  lemma BlockByBits(prf: Prf, h: nat, password: bytes, salt: bytes, c: nat, index: nat)
    requires PrfLength(prf, h) && c >= 1
    ensures IsBlock(prf, h, password, salt, c, index, PbkdfT(prf, password, salt, c, index))
  {
    hide PrfLength, PbkdfT, PbkdfChain, Be32, FixedBE, Two, Parity;
    PbkdfLength(prf, h, password, salt, c, index);
    forall ix, u: seq<bytes>, k: nat, i: nat
      | k < h && i < 8 && Be32(ix, index) && |u| == c && PbkdfChain(prf, password, salt, ix, u) &&
        (forall m :: m in u ==> |m| == h)
      ensures PbkdfT(prf, password, salt, c, index)[k] / Two(i) % 2 == Parity(u, k, i)
    {
      Be32Only(ix, index);
      ParityOfT(prf, h, password, salt, index, u, k, i);
    }
  }

  lemma PbkdfByBits(prf: Prf, h: nat, password: bytes, salt: bytes, c: nat, len: nat)
    requires h > 0 && PrfLength(prf, h) && c >= 1
    ensures |Output(PbkdfStream(prf, password, salt, c), h, len)| == len
    ensures IsPbkdf2(prf, h, password, salt, c, Output(PbkdfStream(prf, password, salt, c), h, len))
  {
    hide PrfLength, BlockStream, PbkdfT, PbkdfChain, Be32, Output, FixedBE, Two, Parity;
    var f := PbkdfStream(prf, password, salt, c);
    PbkdfSized(prf, h, password, salt, c);
    OutputSized(f, h, len);
    forall pos: nat, ix, u: seq<bytes>, i: nat
      | pos < len && i < 8 && Be32(ix, pos / h + 1) && |u| == c && PbkdfChain(prf, password, salt, ix, u) &&
        (forall m :: m in u ==> |m| == h)
      ensures Output(f, h, len)[pos] / Two(i) % 2 == Parity(u, pos % h, i)
    {
      OutputAt(f, h, len, pos);
      Be32Only(ix, pos / h + 1);
      ParityOfT(prf, h, password, salt, pos / h + 1, u, pos % h, i);
    }
  }

  lemma ChainOfU(prf: Prf, h: nat, password: bytes, salt: bytes, index: nat, c: nat) returns (u: seq<bytes>)
    requires PrfLength(prf, h) && c >= 1
    ensures |u| == c && PbkdfChain(prf, password, salt, FixedBE(index, 4), u) && forall m :: m in u ==> |m| == h
  {
    u := seq(c, j requires 0 <= j < c => PbkdfU(prf, password, salt, index, j + 1));
  }

  /** Numbers with the same low bits are the same. */
  lemma {:induction false} BitsDetermine(a: nat, b: nat, k: nat)
    requires a < Two(k) && b < Two(k) && forall i: nat :: i < k ==> a / Two(i) % 2 == b / Two(i) % 2
    ensures a == b
  {
    hide Bit;
    if k > 0 {
      LowBit(a);
      LowBit(b);
      BitIs(a, 0);
      BitIs(b, 0);
      forall i: nat | i < k - 1
        ensures a / 2 / Two(i) % 2 == b / 2 / Two(i) % 2
      {
        NextBit(a, i + 1);
        NextBit(b, i + 1);
        BitIs(a, i + 1);
        BitIs(b, i + 1);
        BitIs(a / 2, i);
        BitIs(b / 2, i);
      }
      BitsDetermine(a / 2, b / 2, k - 1);
    }
  }

  lemma BitIs(a: nat, i: nat)
    ensures Bit(a, i) == a / Two(i) % 2
  {
  }

  /** Nothing else of its length has these bits. */
  lemma Pbkdf2Only(prf: Prf, h: nat, password: bytes, salt: bytes, c: nat, out: bytes)
    requires h > 0 && PrfLength(prf, h) && c >= 1 && IsPbkdf2(prf, h, password, salt, c, out)
    ensures out == Output(PbkdfStream(prf, password, salt, c), h, |out|)
  {
    hide PrfLength, PbkdfChain, Be32, Output, FixedBE, Two, Parity;
    var full := Output(PbkdfStream(prf, password, salt, c), h, |out|);
    PbkdfByBits(prf, h, password, salt, c, |out|);
    forall pos: nat | pos < |out|
      ensures out[pos] == full[pos]
    {
      var ix := FixedBE(pos / h + 1, 4);
      Be32Only(ix, pos / h + 1);
      var u := ChainOfU(prf, h, password, salt, pos / h + 1, c);
      EightBits();
      forall i: nat | i < 8
        ensures out[pos] / Two(i) % 2 == full[pos] / Two(i) % 2
      {
        assert out[pos] / Two(i) % 2 == Parity(u, pos % h, i);
      }
      BitsDetermine(out[pos], full[pos], 8);
    }
  }

  /**
   `pbkdf2_manual_sha256`, `_sha384` and `_sha512` are the instances h = 32, 48 and 64. Past the standard's limit of
   2^32 - 1 blocks the 32-bit block index starts over, as it does in the code.
   */
  method Pbkdf2Manual(prf: Prf, h: nat, password: bytes, salt: bytes, iterations: nat, out: array<byte>)
    requires h > 0 && PrfLength(prf, h)
    modifies out
    ensures out[..] == Output(PbkdfStream(prf, password, salt, Rounds(iterations)), h, out.Length)
    ensures IsPbkdf2(prf, h, password, salt, if iterations == 0 then 1 else iterations, out[..])
  {
    hide IsPbkdf2, PbkdfT, PrfLength, BlockStream;
    ghost var f := PbkdfStream(prf, password, salt, Rounds(iterations));
    PbkdfSized(prf, h, password, salt, Rounds(iterations));
    var i := 0;
    var offset := 0;
    while offset < out.Length
      invariant 0 <= offset <= out.Length <= |Blocks(f, i)| || offset == |Blocks(f, i)| <= out.Length
      invariant out[..offset] == Blocks(f, i)[..offset]
      invariant offset == out.Length || offset == |Blocks(f, i)|
      decreases out.Length - offset
    {
      var block := ChunkBlock(prf, h, password, salt, iterations, i + 1);
      var chunk := if out.Length - offset < h then out.Length - offset else h;
      CopyChunk(out, offset, block[..chunk]);
      ChunkAppended(f, i, block[..], chunk);
      offset := offset + chunk;
      i := i + 1;
    }
    OutputFromBlocks(f, h, out.Length, i);
    PbkdfByBits(prf, h, password, salt, Rounds(iterations), out.Length);
    assert out[..] == out[..offset];
  }

  lemma ChunkAppended(f: nat -> bytes, i: nat, block: bytes, chunk: nat)
    requires f(i + 1) == block && chunk <= |block|
    ensures |Blocks(f, i + 1)| == |Blocks(f, i)| + |block|
    ensures Blocks(f, i + 1)[..|Blocks(f, i)| + chunk] == Blocks(f, i) + block[..chunk]
  {
  }

  /** `chunk.copy_from_slice` on the part of the output that starts at offset. */
  method CopyChunk(out: array<byte>, offset: nat, source: bytes)
    requires offset + |source| <= out.Length
    modifies out
    ensures out[..offset + |source|] == old(out[..offset]) + source
  {
    forall k | 0 <= k < |source| {
      out[offset + k] := source[k];
    }
    assert out[..offset] == old(out[..offset]);
    assert out[offset..offset + |source|] == source;
    assert out[..offset + |source|] == out[..offset] + out[offset..offset + |source|];
  }

  lemma XorParities()
    ensures forall a: byte, b: byte, i: nat :: i < 8 ==> Xor(a, b) / Two(i) % 2 == (a / Two(i) + b / Two(i)) % 2
  {
    hide Xor, Two;
    forall a: byte, b: byte, i: nat | i < 8
      ensures Xor(a, b) / Two(i) % 2 == (a / Two(i) + b / Two(i)) % 2
    {
      XorParity(a, b, i);
    }
  }

  /** The in-place XOR of the round loop. */
  method XorInto(block: array<byte>, u: bytes)
    requires |u| == block.Length
    modifies block
    ensures block[..] == XorBytes(old(block[..]), u)
    ensures forall k: nat, i: nat :: k < block.Length && i < 8 ==>
              block[k] / Two(i) % 2 == (old(block[k]) / Two(i) + u[k] / Two(i)) % 2
  {
    hide Xor, Two;
    XorParities();
    for k := 0 to block.Length
      invariant forall i :: 0 <= i < k ==> block[i] == Xor(old(block[i]), u[i])
      invariant forall i :: k <= i < block.Length ==> block[i] == old(block[i])
    {
      block[k] := Xor(block[k], u[k]);
    }
  }

  /** The body of the chunk loop: the block array is folded in place. */
  method ChunkBlock(prf: Prf, h: nat, password: bytes, salt: bytes, iterations: nat, index: nat)
      returns (block: array<byte>)
    requires PrfLength(prf, h)
    ensures fresh(block) && block[..] == PbkdfT(prf, password, salt, Rounds(iterations), index) && block.Length == h
    ensures IsBlock(prf, h, password, salt, if iterations == 0 then 1 else iterations, index, block[..])
  {
    hide Xor, XorBytes, FixedBE, IsBlock, Two;
    BlockByBits(prf, h, password, salt, Rounds(iterations), index);
    var u := prf(password, salt + FixedBE(index, 4));
    block := new byte[h](k requires 0 <= k < h => u[k]);
    assert block[..] == u;
    var j := 1;
    while j < iterations
      invariant 1 <= j <= Rounds(iterations)
      invariant u == PbkdfU(prf, password, salt, index, j) && |u| == h
      invariant block[..] == PbkdfT(prf, password, salt, j, index)
    {
      u := prf(password, u);
      XorInto(block, u);
      j := j + 1;
    }
  }

  lemma PbkdfSized(prf: Prf, h: nat, password: bytes, salt: bytes, c: nat)
    requires PrfLength(prf, h) && c >= 1
    ensures BlockStream(PbkdfStream(prf, password, salt, c), h)
  {
    forall i: nat
      ensures |PbkdfStream(prf, password, salt, c)(i)| == h
    {
      PbkdfLength(prf, h, password, salt, c, i);
    }
  }

  /** For iteration counts from 1 on, a shorter derived key is a prefix of a longer one. */
  lemma Pbkdf2Prefix(prf: Prf, h: nat, password: bytes, salt: bytes, c: nat, short: nat, long: nat)
    requires h > 0 && PrfLength(prf, h) && c >= 1 && short <= long
    ensures var f := PbkdfStream(prf, password, salt, c); Output(f, h, short) <= Output(f, h, long)
    ensures |Output(PbkdfStream(prf, password, salt, c), h, short)| == short
  {
    var f := PbkdfStream(prf, password, salt, c);
    PbkdfSized(prf, h, password, salt, c);
    OutputPrefix(f, h, short, long);
    OutputPrefix(f, h, short, short);
  }
}
