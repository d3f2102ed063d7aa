/**
 PASERK texts as relations over the library operations and the literal headers, domain octets and lengths of the
 standard, without any function of module Paserk that builds or opens one; and the theorems that `encode_paserk`,
 `decode_paserk` and the four stand-alone wrapping functions of src/paseto.rs compute exactly these relations.
 */
module PaserkRelation {
  import opened Base64
  import opened Base64Bits
  import opened Bytes
  import opened Paserk
  import opened Paseto
  import PaserkTexts
  import Text

  predicate Wrappable(u: bytes) {
    u == B("local") || u == B("secret")
  }

  // ---------- PIE ----------

  function PieHead(u: bytes): bytes {
    if u == B("local") then B("k4.local-wrap.pie.") else B("k4.secret-wrap.pie.")
  }

  /** Domain octet 0x80 for the cipher, 0x81 for the tag; tag, nonce and ciphertext after the header. */
  ghost predicate IsPie(c: Crypto, u: bytes, wk: bytes, n: bytes, k: bytes, t: bytes)
    requires c.Laws()
  {
    var x := c.mac(wk, [0x80] + n, 56);
    var ct := c.stream(x[..32], x[32..], k);
    |n| == 32 && t == PieHead(u) + Text64(c.mac(c.mac(wk, [0x81] + n, 32), PieHead(u) + n + ct, 32) + n + ct)
  }

  lemma PurposesDiffer()
    ensures B("local") != B("secret") && B("local") != B("public") && B("secret") != B("public")
  {
    assert B("local")[0] == 108 && B("secret")[0] == 115 && B("public")[0] == 112;
  }

  lemma Heads(u: bytes)
    requires Wrappable(u)
    ensures PieHeader(u) == PieHead(u) && PwHeader(u) == PwHead(u) && PlainHeader(u) == PlainHead(u)
  {
    hide B;
    PurposesDiffer();
    PieHeads();
    PwHeads();
    PlainHeads();
  }

  lemma PieHeads()
    ensures B("k4.") + B("local") + B("-wrap.pie.") == B("k4.local-wrap.pie.")
    ensures B("k4.") + B("secret") + B("-wrap.pie.") == B("k4.secret-wrap.pie.")
  {
  }

  lemma PwHeads()
    ensures B("k4.") + B("local") + B("-pw.") == B("k4.local-pw.")
    ensures B("k4.") + B("secret") + B("-pw.") == B("k4.secret-pw.")
  {
  }

  lemma PlainHeads()
    ensures B("k4.") + B("local") + [Text.DOT] == B("k4.local.")
    ensures B("k4.") + B("secret") + [Text.DOT] == B("k4.secret.")
    ensures B("k4.") + B("public") + [Text.DOT] == B("k4.public.")
  {
  }

  lemma PublicHead()
    ensures PlainHeader(B("public")) == PlainHead(B("public")) && !Wrappable(B("public"))
  {
    hide B;
    PurposesDiffer();
    PlainHeads();
  }

  lemma PieIs(c: Crypto, u: bytes, wk: bytes, n: bytes, k: bytes, t: bytes)
    requires c.Laws() && Wrappable(u)
    ensures IsPie(c, u, wk, n, k, t) <==> |n| == 32 && t == PieText(c, u, wk, n, k)
  {
    hide B, Encode, PieHead, PieHeader;
    Heads(u);
    var x := c.mac(wk, [0x80] + n, 56);
    var ct := c.stream(x[..32], x[32..], k);
    var tag := c.mac(c.mac(wk, [0x81] + n, 32), PieHead(u) + n + ct, 32);
    assert tag + n + ct == tag + (n + ct);
  }

  // ---------- PBKW ----------

  function PwHead(u: bytes): bytes {
    if u == B("local") then B("k4.local-pw.") else B("k4.secret-pw.")
  }

  /** The parameter block as its octets: salt, memory in bytes, passes, lanes and nonce. */
  datatype Block = Block(salt: bytes, mem: bytes, time: bytes, para: bytes, nonce: bytes) {
    predicate Sized() {
      |salt| == 16 && |mem| == 8 && |time| == 4 && |para| == 4 && |nonce| == 24
    }

    function Octets(): bytes {
      salt + mem + time + para + nonce
    }

    function Params(): PbkwParams {
      PbkwParams(salt, FromBE(mem), FromBE(time), FromBE(para), nonce)
    }
  }

  /** Domain octet 0xff for the cipher, 0xfe for the tag; parameters, ciphertext and tag after the header. */
  ghost predicate IsPw(p: Primitives, u: bytes, pw: bytes, b: Block, k: bytes, t: bytes) {
    var a := p.argon2(pw, b.salt, FromBE(b.mem) / 1024 % 0x1_0000_0000, FromBE(b.time), FromBE(b.para));
    b.Sized() && a.Some? &&
    var ct := p.c.stream(p.c.hash([0xff] + a.value, 32), b.nonce, k);
    t == PwHead(u) + Text64(b.Octets() + ct +
                            p.c.mac(p.c.hash([0xfe] + a.value, 32), PwHead(u) + b.Octets() + ct, 32))
  }

  lemma BlockIs(b: Block)
    requires b.Sized()
    ensures b.Params().WellFormed() && b.Octets() == b.Params().Text()
  {
    hide FixedBE, FromBE;
    FixedOfFrom(b.mem);
    FixedOfFrom(b.time);
    FixedOfFrom(b.para);
    FromBEBound(b.mem);
    FromBEBound(b.time);
    FromBEBound(b.para);
    Paserk.Width();
    Regroup5(b.salt, b.mem, b.time, b.para, b.nonce);
  }

  lemma Regroup5(a: bytes, b: bytes, c: bytes, d: bytes, e: bytes)
    ensures a + b + c + d + e == a + (b + (c + (d + e)))
  {
  }

  /** The block that holds given parameters. */
  function BlockOf(q: PbkwParams): Block {
    Block(q.salt, FixedBE(q.mem, 8), FixedBE(q.time, 4), FixedBE(q.para, 4), q.nonce)
  }

  lemma BlockOfIs(q: PbkwParams)
    requires q.WellFormed()
    ensures BlockOf(q).Sized() && BlockOf(q).Params() == q
  {
    hide FixedBE, FromBE;
    FromFixedBE(q.mem, 8);
    FromFixedBE(q.time, 4);
    FromFixedBE(q.para, 4);
    Paserk.Width();
    InRange(q);
  }

  lemma PwIs(p: Primitives, u: bytes, pw: bytes, b: Block, k: bytes, t: bytes)
    requires Wrappable(u)
    ensures IsPw(p, u, pw, b, k, t) <==> b.Sized() && PaserkTexts.PwWrapped(p, u, pw, b.Params(), t, k)
  {
    hide B, Encode, FromBE, PwHead, PwHeader, Block.Octets, PbkwParams.Text, PbkwParams.WellFormed;
    Heads(u);
    if b.Sized() {
      BlockIs(b);
      var a := Stretch(p, pw, b.Params());
      if a.Some? {
        var ct := p.c.stream(p.c.hash([0xff] + a.value, 32), b.nonce, k);
        assert PwHead(u) + b.Octets() + ct == PwHead(u) + (b.Octets() + ct);
        var tag := p.c.mac(p.c.hash([0xfe] + a.value, 32), PwHead(u) + b.Octets() + ct, 32);
        assert b.Octets() + ct + tag == b.Octets() + (ct + tag);
      }
    }
  }

  // ---------- seal ----------

  /** Domain octets 0x01 and 0x02; tag, ephemeral public key and ciphertext. */
  ghost predicate IsSealed(c: Crypto, xk: bytes, epk: bytes, xpk: bytes, k: bytes, d: bytes) {
    var ct := c.stream(c.hash([0x01] + B("k4.seal.") + xk + epk + xpk, 32), c.hash(epk + xpk, 24), k);
    d == c.mac(c.hash([0x02] + B("k4.seal.") + xk + epk + xpk, 32), B("k4.seal.") + epk + ct, 32) + epk + ct
  }

  lemma SealedIs(c: Crypto, xk: bytes, epk: bytes, xpk: bytes, k: bytes, d: bytes)
    ensures IsSealed(c, xk, epk, xpk, k, d) <==> d == SealFrame(c, xk, epk, xpk, k)
  {
    hide B;
    var ct := c.stream(c.hash([0x01] + B("k4.seal.") + xk + epk + xpk, 32), c.hash(epk + xpk, 24), k);
    var tag := c.mac(c.hash([0x02] + B("k4.seal.") + xk + epk + xpk, 32), B("k4.seal.") + epk + ct, 32);
    assert tag + epk + ct == tag + (epk + ct);
  }

  // ---------- plain ----------

  function PlainHead(u: bytes): bytes {
    if u == B("local") then B("k4.local.") else if u == B("secret") then B("k4.secret.") else B("k4.public.")
  }

  // ---------- encode_paserk ----------

  /** The key that is written: 32 octets, or for a secret the seed and its public key. */
  ghost predicate IsNormal(p: Primitives, u: bytes, key: bytes, k: bytes) {
    if u == B("local") || u == B("public") then |key| == 32 && k == key
    else
      u == B("secret") &&
      ((|key| == 32 && p.ed25519(key).Some? && k == key + p.ed25519(key).value) || (|key| == 64 && k == key))
  }

  ghost predicate WrittenPw(p: Primitives, u: bytes, k: bytes, pw: bytes, r: Draws, t: bytes) {
    exists b: Block ::
      r.salt == Some(b.salt) && r.nonce == Some(b.nonce) && FromBE(b.mem) == 0x400_0000 && FromBE(b.time) == 2 &&
      FromBE(b.para) == 1 && IsPw(p, u, pw, b, k, t)
  }

  ghost predicate WrittenSeal(p: Primitives, k: bytes, sealing: bytes, r: Draws, t: bytes) {
    p.x25519Extract(sealing).Some? && r.esk.Some? && p.x25519Public(r.esk.value).Some? &&
    p.x25519Derive(r.esk.value, p.x25519Extract(sealing).value).Some? &&
    var xpk := p.x25519Extract(sealing).value;
    exists d ::
      IsSealed(p.c, p.x25519Derive(r.esk.value, xpk).value, p.x25519Public(r.esk.value).value, xpk, k, d) &&
      t == B("k4.seal.") + Text64(d)
  }

  /** One text per mode; a password excludes a wrapping key, and neither goes with a public key. */
  ghost predicate Written(p: Primitives, u: bytes, key: bytes, wk: Option<bytes>, pw: Option<bytes>,
                          sealing: Option<bytes>, r: Draws, k: bytes, t: bytes)
    requires p.Laws()
  {
    IsNormal(p, u, key, k) && !(wk.Some? && pw.Some?) && (u == B("public") ==> wk == None && pw == None) &&
    if pw.Some? then WrittenPw(p, u, k, pw.value, r, t)
    else if sealing.Some? then u == B("local") && WrittenSeal(p, k, sealing.value, r, t)
    else if wk.Some? then |wk.value| == 32 && r.wrapNonce.Some? && IsPie(p.c, u, wk.value, r.wrapNonce.value, k, t)
    else t == PlainHead(u) + Text64(k)
  }

  lemma NormalIs(p: Primitives, u: bytes, key: bytes, k: bytes)
    ensures IsNormal(p, u, key, k) <==> Normalised(u, key, p.ed25519) == Ok(k)
    ensures IsNormal(p, u, key, k) ==> Wrappable(u) || u == B("public")
  {
    hide B;
  }

  lemma WrittenPwIs(p: Primitives, u: bytes, k: bytes, pw: bytes, r: Draws, t: bytes)
    requires p.Laws() && r.Sized() && Wrappable(u)
    ensures WrittenPw(p, u, k, pw, r, t) <==> EncodePw(p, u, k, pw, r) == Ok(t)
  {
    hide B, PwHead, PwHeader, PwText, FixedBE, FromBE, IsPw, Stretch, PbkwParams.Text;
    if r.salt.Some? && r.nonce.Some? {
      var q := DefaultParams(r.salt.value, r.nonce.value);
      PaserkTexts.SameCost(p, pw, r.salt.value, r.nonce.value);
      BlockOfIs(q);
      PwIs(p, u, pw, BlockOf(q), k, t);
      if b: Block :| r.salt == Some(b.salt) && r.nonce == Some(b.nonce) && FromBE(b.mem) == 0x400_0000 &&
                     FromBE(b.time) == 2 && FromBE(b.para) == 1 && IsPw(p, u, pw, b, k, t) {
        PwIs(p, u, pw, b, k, t);
        assert b.Params() == q;
      }
    }
  }

  lemma WrittenSealIs(p: Primitives, k: bytes, sealing: bytes, r: Draws, t: bytes)
    ensures WrittenSeal(p, k, sealing, r, t) <==> EncodeSeal(p, k, sealing, r) == Ok(t)
  {
    hide B, Encode, SealFrame, IsSealed;
    if p.x25519Extract(sealing).Some? && r.esk.Some? && p.x25519Public(r.esk.value).Some? &&
       p.x25519Derive(r.esk.value, p.x25519Extract(sealing).value).Some? {
      var xpk, epk := p.x25519Extract(sealing).value, p.x25519Public(r.esk.value).value;
      var xk := p.x25519Derive(r.esk.value, xpk).value;
      SealedIs(p.c, xk, epk, xpk, k, SealFrame(p.c, xk, epk, xpk, k));
      forall d | IsSealed(p.c, xk, epk, xpk, k, d)
        ensures d == SealFrame(p.c, xk, epk, xpk, k)
      {
        SealedIs(p.c, xk, epk, xpk, k, d);
      }
    }
  }

  /** `encode_paserk` returns exactly the text described, for all arguments and draws. */
  lemma EncodedIff(p: Primitives, u: bytes, key: bytes, wk: Option<bytes>, pw: Option<bytes>, sealing: Option<bytes>,
                   r: Draws, t: bytes)
    requires p.Laws() && r.Sized()
    ensures Encoded(p, u, key, wk, pw, sealing, r) == Ok(t)
       <==> exists k :: Written(p, u, key, wk, pw, sealing, r, k, t)
  {
    hide B, Normalised, IsNormal, EncodePw, EncodeSeal, PieText, PlainHead, PlainHeader, WrittenPw, WrittenSeal, IsPie,
         Encode, Primitives.Laws, Crypto.Laws;
    LawsOf(p);
    PublicHead();
    var n := Normalised(u, key, p.ed25519);
    if n.Ok? {
      NormalIs(p, u, key, n.value);
      WrittenIff(p, u, key, wk, pw, sealing, r, n.value, t);
    }
    forall k | IsNormal(p, u, key, k)
      ensures n == Ok(k)
    {
      NormalIs(p, u, key, k);
    }
  }

  lemma LawsOf(p: Primitives)
    requires p.Laws()
    ensures p.c.Laws()
  {
  }

  lemma WrittenIff(p: Primitives, u: bytes, key: bytes, wk: Option<bytes>, pw: Option<bytes>, sealing: Option<bytes>,
                   r: Draws, k: bytes, t: bytes)
    requires p.Laws() && r.Sized() && Normalised(u, key, p.ed25519) == Ok(k)
    ensures Encoded(p, u, key, wk, pw, sealing, r) == Ok(t) <==> Written(p, u, key, wk, pw, sealing, r, k, t)
  {
    hide B, Normalised, IsNormal, EncodePw, EncodeSeal, PieText, PlainHead, PlainHeader, WrittenPw, WrittenSeal, IsPie,
         Encode, Primitives.Laws, Crypto.Laws;
    LawsOf(p);
    NormalIs(p, u, key, k);
    PublicHead();
    if Wrappable(u) {
      Heads(u);
      if pw.Some? {
        WrittenPwIs(p, u, k, pw.value, r, t);
      } else if sealing.Some? {
        WrittenSealIs(p, k, sealing.value, r, t);
      } else if wk.Some? && r.wrapNonce.Some? {
        PieIs(p.c, u, wk.value, r.wrapNonce.value, k, t);
      }
    }
  }

  // ---------- decode_paserk ----------

  predicate Wanted(want: Option<bytes>, u: bytes) {
    want.Some? ==> want.value == u
  }

  ghost predicate ReadPie(p: Primitives, t: bytes, want: Option<bytes>, wk: Option<bytes>, k: bytes)
    requires p.Laws()
  {
    wk.Some? && |wk.value| == 32 &&
    exists u, n :: Wrappable(u) && Wanted(want, u) && IsPie(p.c, u, wk.value, n, k, t)
  }

  ghost predicate ReadPw(p: Primitives, t: bytes, want: Option<bytes>, pw: Option<bytes>, k: bytes) {
    pw.Some? && |k| >= 32 &&
    exists u, b :: Wrappable(u) && Wanted(want, u) && IsPw(p, u, pw.value, b, k, t)
  }

  /** Sealed data of at least 32 key octets, for the key pair of xsk. */
  ghost predicate Unseals(p: Primitives, xsk: bytes, d: bytes, k: bytes) {
    |d| >= 96 && p.x25519Public(xsk).Some? && p.x25519Derive(xsk, d[32..64]).Some? &&
    IsSealed(p.c, p.x25519Derive(xsk, d[32..64]).value, d[32..64], p.x25519Public(xsk).value, k, d)
  }

  /** Whatever follows a dot after the data is not looked at, as long as it holds no dot. */
  predicate SealedText(t: bytes, d: bytes, junk: bytes) {
    '.' as int !in junk && (t == B("k4.seal.") + Text64(d) || t == B("k4.seal.") + Text64(d) + B(".") + junk)
  }

  /** The type wanted is not looked at. */
  ghost predicate ReadSeal(p: Primitives, t: bytes, unsealing: Option<bytes>, k: bytes) {
    unsealing.Some? && p.x25519Extract(unsealing.value).Some? &&
    exists d, junk ::
      Unseals(p, p.x25519Extract(unsealing.value).value, d, k) && SealedText(t, d, junk)
  }

  /** Any dot-free type the caller names, unless it is one of the other modes; unnamed, one of the three purposes. */
  predicate PlainType(u: bytes, want: Option<bytes>) {
    '.' as int !in u && u != B("local-wrap") && u != B("secret-wrap") && u != B("local-pw") && u != B("secret-pw") &&
    u != B("seal") &&
    if want.Some? then want.value == u else u == B("local") || u == B("public") || u == B("secret")
  }

  ghost predicate ReadPlain(t: bytes, want: Option<bytes>, wk: Option<bytes>, pw: Option<bytes>, k: bytes) {
    wk == None && pw == None && exists u :: PlainType(u, want) && t == B("k4.") + u + B(".") + Text64(k)
  }

  /** `decode_paserk` returns k exactly for the texts described, for all arguments. */
  lemma DecodedIff(p: Primitives, t: bytes, want: Option<bytes>, wk: Option<bytes>, pw: Option<bytes>,
                   unsealing: Option<bytes>, k: bytes)
    requires p.Laws()
    ensures Decoded(p, t, want, wk, pw, unsealing) == Ok(k)
       <==> !(wk.Some? && pw.Some?) &&
            (ReadPie(p, t, want, wk, k) || ReadPw(p, t, want, pw, k) || ReadSeal(p, t, unsealing, k) ||
             ReadPlain(t, want, wk, pw, k))
  {
    hide Decoded, ReadPie, ReadPw, ReadSeal, ReadPlain, PaserkTexts.PieAccepted, PaserkTexts.PwAccepted,
         PaserkTexts.SealAccepted, PaserkTexts.PlainAccepted, Primitives.Laws;
    PaserkTexts.DecodedExact(p, t, want, wk, pw, unsealing, k);
    ReadPieIs(p, t, want, wk, k);
    ReadPwIs(p, t, want, pw, k);
    ReadSealIs(p, t, unsealing, k);
    ReadPlainIs(t, want, wk, pw, k);
  }

  lemma ReadPieIs(p: Primitives, t: bytes, want: Option<bytes>, wk: Option<bytes>, k: bytes)
    requires p.Laws()
    ensures ReadPie(p, t, want, wk, k) <==> PaserkTexts.PieAccepted(p, t, want, wk, k)
  {
    hide B, IsPie, PieText;
    if wk.Some? {
      forall u, n | Wrappable(u)
        ensures IsPie(p.c, u, wk.value, n, k, t) <==> |n| == 32 && t == PieText(p.c, u, wk.value, n, k)
      {
        PieIs(p.c, u, wk.value, n, k, t);
      }
    }
  }

  lemma ReadPwIs(p: Primitives, t: bytes, want: Option<bytes>, pw: Option<bytes>, k: bytes)
    ensures ReadPw(p, t, want, pw, k) <==> PaserkTexts.PwAccepted(p, t, want, pw, k)
  {
    hide B, IsPw, PaserkTexts.PwWrapped, PbkwParams.WellFormed, FixedBE, FromBE;
    if pw.Some? {
      if u, b :| Wrappable(u) && Wanted(want, u) && IsPw(p, u, pw.value, b, k, t) {
        PwIs(p, u, pw.value, b, k, t);
      }
      if u, q :| IsWrappable(u) && TypeMatches(want, u) && PaserkTexts.PwWrapped(p, u, pw.value, q, t, k) {
        WrappedWell(p, u, pw.value, q, t, k);
        BlockOfIs(q);
        PwIs(p, u, pw.value, BlockOf(q), k, t);
      }
    }
  }

  lemma WrappedWell(p: Primitives, u: bytes, pw: bytes, q: PbkwParams, t: bytes, k: bytes)
    requires PaserkTexts.PwWrapped(p, u, pw, q, t, k)
    ensures q.WellFormed()
  {
  }

  lemma UnsealsIs(p: Primitives, xsk: bytes, d: bytes, k: bytes)
    requires p.Laws()
    ensures Unseals(p, xsk, d, k) <==> OpenSeal(p, xsk, d) == Ok(k)
  {
    hide IsSealed, OpenSeal, SealFrame;
    SealExact(p, xsk, d, k);
    if |d| >= 96 && p.x25519Public(xsk).Some? && p.x25519Derive(xsk, d[32..64]).Some? {
      SealedIs(p.c, p.x25519Derive(xsk, d[32..64]).value, d[32..64], p.x25519Public(xsk).value, k, d);
    }
  }

  lemma ReadSealIs(p: Primitives, t: bytes, unsealing: Option<bytes>, k: bytes)
    requires p.Laws()
    ensures ReadSeal(p, t, unsealing, k) <==> PaserkTexts.SealAccepted(p, t, unsealing, k)
  {
    hide B, Encode, Unseals, OpenSeal, PaserkTexts.SealedWith, SealedText;
    if unsealing.Some? && p.x25519Extract(unsealing.value).Some? {
      var xsk := p.x25519Extract(unsealing.value).value;
      if d, junk :| Unseals(p, xsk, d, k) && SealedText(t, d, junk) {
        UnsealsIs(p, xsk, d, k);
        var j := SealTextIs(t, d, junk);
      }
      if d, junk :| OpenSeal(p, xsk, d) == Ok(k) && PaserkTexts.SealedWith(t, d, junk) {
        UnsealsIs(p, xsk, d, k);
        var j := SealWithIs(t, d, junk);
      }
    }
  }

  lemma SealTextIs(t: bytes, d: bytes, junk: bytes) returns (j: Option<bytes>)
    requires SealedText(t, d, junk)
    ensures PaserkTexts.SealedWith(t, d, j)
  {
    hide Encode;
    assert B(".") == [Text.DOT];
    assert B("k4.seal.") + Text64(d) + [] == B("k4.seal.") + Text64(d);
    assert B("k4.seal.") + Text64(d) + B(".") + junk == B("k4.seal.") + Text64(d) + ([Text.DOT] + junk);
    j := if t == B("k4.seal.") + Text64(d) then None else Some(junk);
  }

  lemma SealWithIs(t: bytes, d: bytes, junk: Option<bytes>) returns (j: bytes)
    requires PaserkTexts.SealedWith(t, d, junk)
    ensures SealedText(t, d, j)
  {
    hide Encode;
    assert B(".") == [Text.DOT];
    j := if junk == None then [] else junk.value;
    assert B("k4.seal.") + Text64(d) + B(".") + j == B("k4.seal.") + Text64(d) + ([Text.DOT] + j);
    assert B("k4.seal.") + Text64(d) + [] == B("k4.seal.") + Text64(d);
  }

  lemma Suffixed()
    ensures B("local") + B("-wrap") == B("local-wrap") && B("secret") + B("-wrap") == B("secret-wrap")
    ensures B("local") + B("-pw") == B("local-pw") && B("secret") + B("-pw") == B("secret-pw")
  {
  }

  lemma PlainTypeIs(u: bytes, want: Option<bytes>)
    ensures PlainType(u, want) <==> PaserkTexts.PlainType(u, want)
  {
    hide B;
    Suffixed();
    assert '.' as int !in u <==> Text.NoDot(u);
  }

  lemma ReadPlainIs(t: bytes, want: Option<bytes>, wk: Option<bytes>, pw: Option<bytes>, k: bytes)
    ensures ReadPlain(t, want, wk, pw, k) <==> PaserkTexts.PlainAccepted(t, want, wk, pw, k)
  {
    hide B, Encode, PlainType, PaserkTexts.PlainType;
    OneDot();
    if u :| PlainType(u, want) && t == B("k4.") + u + B(".") + Text64(k) {
      PlainTypeIs(u, want);
      assert PaserkTexts.PlainType(u, want) && t == PlainText(u, k);
    }
    if u :| PaserkTexts.PlainType(u, want) && t == PlainText(u, k) {
      PlainTypeIs(u, want);
      assert PlainType(u, want) && t == B("k4.") + u + B(".") + Text64(k);
    }
  }

  lemma OneDot()
    ensures B(".") == [Text.DOT]
  {
  }

  // ---------- the stand-alone functions ----------

  /** `paserk_wrap_pie` and `paserk_unwrap_pie` */
  lemma WrapPieIff(c: Crypto, wk: bytes, k: bytes, u: bytes, nonce: Option<bytes>, t: bytes)
    requires c.Laws() && (nonce.Some? ==> |nonce.value| == 32)
    ensures WrapPie(c, wk, k, u, nonce) == Ok(t) <==> Wrappable(u) && nonce.Some? && IsPie(c, u, wk, nonce.value, k, t)
  {
    hide B, IsPie, PieText;
    if Wrappable(u) && nonce.Some? {
      PieIs(c, u, wk, nonce.value, k, t);
    }
  }

  lemma UnwrapPieIff(c: Crypto, wk: bytes, k: bytes, t: bytes)
    requires c.Laws() && |wk| <= 64
    ensures UnwrapPie(c, wk, t) == Ok(k) <==> exists u, n :: Wrappable(u) && IsPie(c, u, wk, n, k, t)
  {
    hide B, IsPie, PieText, UnwrapPie;
    PaserkTexts.UnwrapPieExact(c, wk, t, k);
    forall u, n | Wrappable(u)
      ensures IsPie(c, u, wk, n, k, t) <==> |n| == 32 && t == PieText(c, u, wk, n, k)
    {
      PieIs(c, u, wk, n, k, t);
    }
  }

  /** `paserk_wrap_pbkw`, for a u64 memory limit and u32 costs */
  lemma WrapPbkwIff(p: Primitives, pw: bytes, k: bytes, u: bytes, mem: nat, time: nat, para: nat, r: Draws, t: bytes)
    requires r.Sized() && mem < 0x1_0000_0000_0000_0000 && time < 0x1_0000_0000 && para < 0x1_0000_0000
    ensures WrapPbkw(p, pw, k, u, mem, time, para, r) == Ok(t)
       <==> Wrappable(u) && exists b: Block ::
              r.salt == Some(b.salt) && r.nonce == Some(b.nonce) && FromBE(b.mem) == mem && FromBE(b.time) == time &&
              FromBE(b.para) == para && IsPw(p, u, pw, b, k, t)
  {
    hide B, IsPw, Stretch, PwText, FixedBE, FromBE;
    if Wrappable(u) && r.salt.Some? && r.nonce.Some? {
      var q := PbkwParams(r.salt.value, mem, time, para, r.nonce.value);
      BlockOfIs(q);
      PwIs(p, u, pw, BlockOf(q), k, t);
      if b: Block :| r.salt == Some(b.salt) && r.nonce == Some(b.nonce) && FromBE(b.mem) == mem &&
                     FromBE(b.time) == time && FromBE(b.para) == para && IsPw(p, u, pw, b, k, t) {
        PwIs(p, u, pw, b, k, t);
        assert b.Params() == q;
      }
    }
  }

  /** `paserk_unwrap_pbkw` */
  lemma UnwrapPbkwIff(p: Primitives, pw: bytes, k: bytes, t: bytes)
    requires p.Laws()
    ensures UnwrapPbkw(p, pw, t) == Ok(k) <==> exists u, b :: Wrappable(u) && IsPw(p, u, pw, b, k, t)
  {
    hide B, IsPw, PaserkTexts.PwWrapped, PbkwParams.WellFormed, FixedBE, FromBE, UnwrapPbkw;
    PaserkTexts.UnwrapPbkwExact(p, pw, t, k);
    if u, b :| Wrappable(u) && IsPw(p, u, pw, b, k, t) {
      PwIs(p, u, pw, b, k, t);
    }
    if u, q :| IsWrappable(u) && PaserkTexts.PwWrapped(p, u, pw, q, t, k) {
      WrappedWell(p, u, pw, q, t, k);
      BlockOfIs(q);
      PwIs(p, u, pw, BlockOf(q), k, t);
    }
  }
}
