/**
 PASERK keys (src/paseto.rs): the plain, wrapped (PIE), password-wrapped (PBKW) and sealed forms as
 functions of their inputs, with exact characterisations of what each reader accepts.
 */
module Paserk {
  import opened Bytes
  import opened Paseto
  import Base64
  import Text

  /** Argon2id as (password, salt, memory KiB, passes, lanes), X25519 and Ed25519; None where the library refuses. */
  datatype Primitives = Primitives(
    c: Crypto,
    argon2: (bytes, bytes, nat, nat, nat) -> Option<bytes>,
    ed25519: bytes -> Option<bytes>,
    x25519Extract: bytes -> Option<bytes>,
    x25519Public: bytes -> Option<bytes>,
    x25519Derive: (bytes, bytes) -> Option<bytes>)
  {
    ghost predicate Laws() {
      c.Laws() &&
      (forall pw, s, m, t, p :: argon2(pw, s, m, t, p).Some? ==> |argon2(pw, s, m, t, p).value| == 32) &&
      (forall s :: ed25519(s).Some? ==> |ed25519(s).value| == 32) &&
      (forall sk :: x25519Public(sk).Some? ==> |x25519Public(sk).value| == 32)
    }

    /** pk is the public key of sk, and key agreement commutes for it. */
    ghost predicate Agrees(sk: bytes, pk: bytes) {
      x25519Public(sk) == Some(pk) &&
      forall esk :: x25519Public(esk).Some? && x25519Derive(esk, pk).Some? ==>
        x25519Derive(sk, x25519Public(esk).value) == x25519Derive(esk, pk)
    }
  }

  datatype PaserkError =
    | Conflict | PublicWrapped | BadKeyLength | BadPurpose | Ed25519Failed | NoEntropy | Argon2Failed
    | SealNotLocal | X25519Failed | BadWrappingKey | Malformed | BadVersion | WrongType | InvalidBase64
    | UnwrapFailed | NeedsPassword | NeedsUnsealingKey

  const U32 := 0x1_0000_0000

  // ---------- PIE ----------

  function PieKeys(c: Crypto, wk: bytes, n: bytes): (bytes, bytes, bytes) {
    var x := c.mac(wk, [0x80] + n, 56);
    (if |x| == 56 then x[..32] else [], if |x| == 56 then x[32..] else [], c.mac(wk, [0x81] + n, 32))
  }

  /** tag, nonce, ciphertext */
  function PieFrame(c: Crypto, header: bytes, wk: bytes, n: bytes, ptk: bytes): bytes {
    var (ek, n2, ak) := PieKeys(c, wk, n);
    var ct := c.stream(ek, n2, ptk);
    c.mac(ak, header + n + ct, 32) + (n + ct)
  }

  function OpenPie(c: Crypto, header: bytes, wk: bytes, data: bytes): Option<bytes> {
    if |data| < 64 then None
    else
      var t, n, ct := data[..32], data[32..64], data[64..];
      var (ek, n2, ak) := PieKeys(c, wk, n);
      if c.mac(ak, header + n + ct, 32) != t then None else Some(c.stream(ek, n2, ct))
  }

  /** PIE data opens to ptk exactly when it is the wrapping of ptk under its own nonce. */
  lemma PieExact(c: Crypto, header: bytes, wk: bytes, data: bytes, ptk: bytes)
    requires c.Laws()
    ensures OpenPie(c, header, wk, data) == Some(ptk)
       <==> |data| >= 64 && data == PieFrame(c, header, wk, data[32..64], ptk)
  {
    hide PieKeys;
    if |data| >= 64 {
      var t, n, ct := data[..32], data[32..64], data[64..];
      assert data == t + (n + ct);
      PieParts(c, header, wk, n, ptk);
      var (ek, n2, ak) := PieKeys(c, wk, n);
      assert c.stream(ek, n2, c.stream(ek, n2, ptk)) == ptk;
      assert c.stream(ek, n2, c.stream(ek, n2, ct)) == ct;
    }
  }

  lemma PieParts(c: Crypto, header: bytes, wk: bytes, n: bytes, ptk: bytes)
    requires c.Laws() && |n| == 32
    ensures var (ek, n2, ak) := PieKeys(c, wk, n);
            var ct := c.stream(ek, n2, ptk);
            var f := PieFrame(c, header, wk, n, ptk);
            |f| == 64 + |ptk| && f[..32] == c.mac(ak, header + n + ct, 32) && f[32..64] == n && f[64..] == ct
  {
  }

  lemma PieRoundTrip(c: Crypto, header: bytes, wk: bytes, n: bytes, ptk: bytes)
    requires c.Laws() && |n| == 32
    ensures OpenPie(c, header, wk, PieFrame(c, header, wk, n, ptk)) == Some(ptk)
  {
    hide PieFrame, OpenPie;
    PieParts(c, header, wk, n, ptk);
    PieExact(c, header, wk, PieFrame(c, header, wk, n, ptk), ptk);
  }

  // ---------- PBKW ----------

  /** salt, memory limit in bytes (u64), passes and lanes (u32), nonce: 56 bytes in all */
  datatype PbkwParams = PbkwParams(salt: bytes, mem: nat, time: nat, para: nat, nonce: bytes) {
    predicate WellFormed() {
      |salt| == 16 && mem < U64 && time < U32 && para < U32 && |nonce| == 24
    }

    function Text(): bytes {
      salt + (FixedBE(mem, 8) + (FixedBE(time, 4) + (FixedBE(para, 4) + nonce)))
    }
  }

  function ReadParams(d: bytes): PbkwParams
    requires |d| >= 56
  {
    PbkwParams(d[..16], FromBE(d[16..24]), FromBE(d[24..28]), FromBE(d[28..32]), d[32..56])
  }

  /** The Argon2 output with the memory limit turned into KiB and cut to 32 bits, as both sides do. */
  function Stretch(p: Primitives, pw: bytes, q: PbkwParams): Option<bytes> {
    p.argon2(pw, q.salt, q.mem / 1024 % U32, q.time, q.para)
  }

  /** parameters, ciphertext, tag */
  function PbkwFrame(p: Primitives, header: bytes, k: bytes, q: PbkwParams, ptk: bytes): bytes {
    var ct := p.c.stream(p.c.hash([0xff] + k, 32), q.nonce, ptk);
    q.Text() + (ct + p.c.mac(p.c.hash([0xfe] + k, 32), header + (q.Text() + ct), 32))
  }

  function OpenPbkw(p: Primitives, header: bytes, pw: bytes, minimum: nat, d: bytes): Result<bytes, PaserkError>
    requires minimum >= 88
  {
    if |d| < minimum then Err(UnwrapFailed)
    else
      var q := ReadParams(d);
      var edk, t := d[56..|d| - 32], d[|d| - 32..];
      var k := Stretch(p, pw, q);
      if k == None then Err(Argon2Failed)
      else if p.c.mac(p.c.hash([0xfe] + k.value, 32), header + (d[..56] + edk), 32) != t then Err(UnwrapFailed)
      else Ok(p.c.stream(p.c.hash([0xff] + k.value, 32), q.nonce, edk))
  }

  lemma Width()
    ensures Exp256(4) == U32 && Exp256(8) == U64
  {
  }

  /** The parameter block is read back, and determines its parameters. */
  lemma ParamsReadBack(q: PbkwParams, rest: bytes)
    requires q.WellFormed()
    ensures |q.Text()| == 56 && ReadParams(q.Text() + rest) == q
  {
    hide FixedBE, FromBE;
    var d := q.Text() + rest;
    assert d[..16] == q.salt;
    assert d[16..24] == FixedBE(q.mem, 8);
    assert d[24..28] == FixedBE(q.time, 4);
    assert d[28..32] == FixedBE(q.para, 4);
    assert d[32..56] == q.nonce;
    FromFixedBE(q.mem, 8);
    FromFixedBE(q.time, 4);
    FromFixedBE(q.para, 4);
    Width();
    InRange(q);
  }

  lemma InRange(q: PbkwParams)
    requires q.WellFormed()
    ensures q.mem % U64 == q.mem && q.time % U32 == q.time && q.para % U32 == q.para
  {
  }

  lemma ParamsCanonical(d: bytes)
    requires |d| >= 56
    ensures ReadParams(d).WellFormed() && ReadParams(d).Text() == d[..56]
  {
    hide FixedBE, FromBE;
    FixedOfFrom(d[16..24]);
    FixedOfFrom(d[24..28]);
    FixedOfFrom(d[28..32]);
    FromBEBound(d[16..24]);
    FromBEBound(d[24..28]);
    FromBEBound(d[28..32]);
    Width();
    assert d[..56] == d[..16] + (d[16..24] + (d[24..28] + (d[28..32] + d[32..56])));
  }

  /** PBKW data opens to ptk exactly when it is the wrapping of ptk under its own parameters. */
  lemma PbkwExact(p: Primitives, header: bytes, pw: bytes, minimum: nat, d: bytes, ptk: bytes)
    requires p.Laws() && minimum >= 88
    ensures OpenPbkw(p, header, pw, minimum, d) == Ok(ptk)
       <==> |d| >= minimum && Stretch(p, pw, ReadParams(d)).Some? &&
            d == PbkwFrame(p, header, Stretch(p, pw, ReadParams(d)).value, ReadParams(d), ptk)
  {
    hide Stretch, ReadParams, PbkwParams.Text;
    if |d| >= minimum && Stretch(p, pw, ReadParams(d)).Some? {
      var q := ReadParams(d);
      var k := Stretch(p, pw, q).value;
      ParamsCanonical(d);
      var edk, t := d[56..|d| - 32], d[|d| - 32..];
      assert d == d[..56] + (edk + t);
      PbkwParts(p, header, k, q, ptk);
      var ek := p.c.hash([0xff] + k, 32);
      assert p.c.stream(ek, q.nonce, p.c.stream(ek, q.nonce, ptk)) == ptk;
      assert p.c.stream(ek, q.nonce, p.c.stream(ek, q.nonce, edk)) == edk;
    }
  }

  lemma PbkwParts(p: Primitives, header: bytes, k: bytes, q: PbkwParams, ptk: bytes)
    requires p.Laws() && q.WellFormed()
    ensures var ct := p.c.stream(p.c.hash([0xff] + k, 32), q.nonce, ptk);
            var f := PbkwFrame(p, header, k, q, ptk);
            |f| == 88 + |ptk| && f[..56] == q.Text() && f[56..|f| - 32] == ct &&
            f[|f| - 32..] == p.c.mac(p.c.hash([0xfe] + k, 32), header + (q.Text() + ct), 32)
  {
  }

  lemma PbkwRoundTrip(p: Primitives, header: bytes, pw: bytes, minimum: nat, q: PbkwParams, ptk: bytes)
    requires p.Laws() && q.WellFormed() && 88 <= minimum <= 88 + |ptk| && Stretch(p, pw, q).Some?
    ensures OpenPbkw(p, header, pw, minimum, PbkwFrame(p, header, Stretch(p, pw, q).value, q, ptk)) == Ok(ptk)
  {
    hide Stretch, ReadParams, PbkwParams.Text, OpenPbkw;
    var k := Stretch(p, pw, q).value;
    var f := PbkwFrame(p, header, k, q, ptk);
    PbkwParts(p, header, k, q, ptk);
    assert f == q.Text() + f[56..];
    ParamsReadBack(q, f[56..]);
    PbkwExact(p, header, pw, minimum, f, ptk);
  }

  // ---------- seal ----------

  const SEAL_HEADER: bytes := B("k4.seal.")

  /** The cipher key, cipher nonce and authentication key of a shared secret. */
  function SealKeys(c: Crypto, xk: bytes, epk: bytes, xpk: bytes): (bytes, bytes, bytes) {
    (c.hash([0x01] + SEAL_HEADER + xk + epk + xpk, 32), c.hash(epk + xpk, 24),
     c.hash([0x02] + SEAL_HEADER + xk + epk + xpk, 32))
  }

  /** tag, ephemeral public key, ciphertext */
  function SealFrame(c: Crypto, xk: bytes, epk: bytes, xpk: bytes, ptk: bytes): bytes {
    var (ek, n, ak) := SealKeys(c, xk, epk, xpk);
    var edk := c.stream(ek, n, ptk);
    c.mac(ak, SEAL_HEADER + epk + edk, 32) + (epk + edk)
  }

  function OpenSeal(p: Primitives, xsk: bytes, data: bytes): Result<bytes, PaserkError> {
    if |data| < 96 then Err(UnwrapFailed)
    else
      var t, epk, edk := data[..32], data[32..64], data[64..];
      var xpk, xk := p.x25519Public(xsk), p.x25519Derive(xsk, epk);
      if xpk == None || xk == None then Err(X25519Failed)
      else
        var (ek, n, ak) := SealKeys(p.c, xk.value, epk, xpk.value);
        if p.c.mac(ak, SEAL_HEADER + epk + edk, 32) != t then Err(UnwrapFailed)
        else Ok(p.c.stream(ek, n, edk))
  }

  /** Sealed data opens exactly when it is the sealing of its plaintext under the secret both sides derive. */
  lemma SealExact(p: Primitives, xsk: bytes, data: bytes, ptk: bytes)
    requires p.Laws()
    ensures OpenSeal(p, xsk, data) == Ok(ptk)
       <==> |data| >= 96 && p.x25519Public(xsk).Some? && p.x25519Derive(xsk, data[32..64]).Some? &&
            data == SealFrame(p.c, p.x25519Derive(xsk, data[32..64]).value, data[32..64], p.x25519Public(xsk).value,
                              ptk)
  {
    hide SealKeys;
    if |data| >= 96 && p.x25519Public(xsk).Some? && p.x25519Derive(xsk, data[32..64]).Some? {
      var t, epk, edk := data[..32], data[32..64], data[64..];
      var xk, xpk := p.x25519Derive(xsk, epk).value, p.x25519Public(xsk).value;
      assert data == t + (epk + edk);
      SealParts(p.c, xk, epk, xpk, ptk);
      var (ek, n, ak) := SealKeys(p.c, xk, epk, xpk);
      assert p.c.stream(ek, n, p.c.stream(ek, n, ptk)) == ptk;
      assert p.c.stream(ek, n, p.c.stream(ek, n, edk)) == edk;
    }
  }

  lemma SealParts(c: Crypto, xk: bytes, epk: bytes, xpk: bytes, ptk: bytes)
    requires c.Laws() && |epk| == 32
    ensures var (ek, n, ak) := SealKeys(c, xk, epk, xpk);
            var edk := c.stream(ek, n, ptk);
            var f := SealFrame(c, xk, epk, xpk, ptk);
            |f| == 64 + |ptk| && f[..32] == c.mac(ak, SEAL_HEADER + epk + edk, 32) && f[32..64] == epk && f[64..] == edk
  {
  }

  lemma SealRoundTrip(p: Primitives, xsk: bytes, xpk: bytes, esk: bytes, ptk: bytes)
    requires p.Laws() && p.Agrees(xsk, xpk) && |ptk| >= 32
    requires p.x25519Public(esk).Some? && p.x25519Derive(esk, xpk).Some?
    ensures OpenSeal(p, xsk, SealFrame(p.c, p.x25519Derive(esk, xpk).value, p.x25519Public(esk).value, xpk, ptk))
         == Ok(ptk)
  {
    hide OpenSeal, SealFrame;
    var epk, xk := p.x25519Public(esk).value, p.x25519Derive(esk, xpk).value;
    SealParts(p.c, xk, epk, xpk, ptk);
    SealExact(p, xsk, SealFrame(p.c, xk, epk, xpk, ptk), ptk);
  }

  // ---------- texts ----------

  function PlainHeader(purpose: bytes): bytes {
    B("k4.") + purpose + [Text.DOT]
  }

  function PieHeader(purpose: bytes): bytes {
    B("k4.") + purpose + B("-wrap.pie.")
  }

  function PwHeader(purpose: bytes): bytes {
    B("k4.") + purpose + B("-pw.")
  }

  predicate IsPurpose(purpose: bytes) {
    purpose == B("local") || purpose == B("public") || purpose == B("secret")
  }

  predicate IsWrappable(purpose: bytes) {
    purpose == B("local") || purpose == B("secret")
  }

  /** A 32-byte secret seed is completed with its public key to the 64 bytes of k4.secret. */
  function Normalised(purpose: bytes, key: bytes, ed25519: bytes -> Option<bytes>): Result<bytes, PaserkError> {
    if purpose == B("local") || purpose == B("public") then (if |key| == 32 then Ok(key) else Err(BadKeyLength))
    else if purpose == B("secret") then
      if |key| == 32 then
        (if ed25519(key) == None then Err(Ed25519Failed) else Ok(key + ed25519(key).value))
      else if |key| == 64 then Ok(key)
      else Err(BadKeyLength)
    else Err(BadPurpose)
  }

  /** The random draws of one encoding: salt (16), cipher nonce (24), ephemeral key (32), wrapping nonce (32). */
  datatype Draws = Draws(salt: Option<bytes>, nonce: Option<bytes>, esk: Option<bytes>, wrapNonce: Option<bytes>) {
    predicate Sized() {
      (salt.Some? ==> |salt.value| == 16) && (nonce.Some? ==> |nonce.value| == 24) &&
      (esk.Some? ==> |esk.value| == 32) && (wrapNonce.Some? ==> |wrapNonce.value| == 32)
    }
  }

  function PieText(c: Crypto, purpose: bytes, wk: bytes, n: bytes, ptk: bytes): bytes {
    PieHeader(purpose) + B64(PieFrame(c, PieHeader(purpose), wk, n, ptk))
  }

  function PwText(p: Primitives, purpose: bytes, k: bytes, q: PbkwParams, ptk: bytes): bytes {
    PwHeader(purpose) + B64(PbkwFrame(p, PwHeader(purpose), k, q, ptk))
  }

  function SealText(frame: bytes): bytes {
    SEAL_HEADER + B64(frame)
  }

  function PlainText(purpose: bytes, key: bytes): bytes {
    PlainHeader(purpose) + B64(key)
  }

  const MEM_KIB := 65536

  /** The fixed cost parameters of `encode_paserk`: 64 MiB, two passes, one lane. */
  function DefaultParams(salt: bytes, nonce: bytes): PbkwParams {
    PbkwParams(salt, MEM_KIB * 1024, 2, 1, nonce)
  }

  function EncodePw(p: Primitives, purpose: bytes, key: bytes, pw: bytes, r: Draws): Result<bytes, PaserkError> {
    if r.salt == None then Err(NoEntropy)
    else
      var k := p.argon2(pw, r.salt.value, MEM_KIB, 2, 1);
      if k == None then Err(Argon2Failed)
      else if r.nonce == None then Err(NoEntropy)
      else Ok(PwText(p, purpose, k.value, DefaultParams(r.salt.value, r.nonce.value), key))
  }

  function EncodeSeal(p: Primitives, key: bytes, sealing: bytes, r: Draws): Result<bytes, PaserkError> {
    var xpk := p.x25519Extract(sealing);
    if xpk == None then Err(X25519Failed)
    else if r.esk == None then Err(NoEntropy)
    else
      var epk, xk := p.x25519Public(r.esk.value), p.x25519Derive(r.esk.value, xpk.value);
      if epk == None || xk == None then Err(X25519Failed)
      else Ok(SealText(SealFrame(p.c, xk.value, epk.value, xpk.value, key)))
  }

  function EncodePie(p: Primitives, purpose: bytes, key: bytes, wk: bytes, r: Draws): Result<bytes, PaserkError> {
    if |wk| != 32 then Err(BadWrappingKey)
    else if r.wrapNonce == None then Err(NoEntropy)
    else Ok(PieText(p.c, purpose, wk, r.wrapNonce.value, key))
  }

  /** `encode_paserk` */
  function Encoded(p: Primitives, purpose: bytes, key: bytes, wk: Option<bytes>, pw: Option<bytes>,
                   sealing: Option<bytes>, r: Draws)
      : Result<bytes, PaserkError>
  {
    if wk.Some? && pw.Some? then Err(Conflict)
    else if purpose == B("public") && (wk.Some? || pw.Some?) then Err(PublicWrapped)
    else
      var k :- Normalised(purpose, key, p.ed25519);
      if pw.Some? then EncodePw(p, purpose, k, pw.value, r)
      else if sealing.Some? then
        if purpose != B("local") then Err(SealNotLocal) else EncodeSeal(p, k, sealing.value, r)
      else if wk.Some? then EncodePie(p, purpose, k, wk.value, r)
      else Ok(PlainText(purpose, k))
  }

  /** The purpose named by the second part of a wrapped key. */
  function WrappedPurpose(part: bytes, suffix: bytes): Option<bytes> {
    if part == B("local") + suffix then Some(B("local"))
    else if part == B("secret") + suffix then Some(B("secret"))
    else None
  }

  predicate TypeMatches(purpose: Option<bytes>, actual: bytes) {
    purpose == None || purpose.value == actual
  }

  function DecodePart(part: bytes): Result<bytes, PaserkError> {
    var d := Base64.Decode(Base64.URL_SAFE_NO_PAD, part);
    if d == None then Err(InvalidBase64) else Ok(d.value)
  }

  function DecodePie(p: Primitives, parts: seq<bytes>, actual: bytes, purpose: Option<bytes>, wk: Option<bytes>)
      : Result<bytes, PaserkError>
  {
    if |parts| != 4 || parts[2] != B("pie") then Err(Malformed)
    else if !TypeMatches(purpose, actual) then Err(WrongType)
    else
      var data :- DecodePart(parts[3]);
      if wk == None then Err(UnwrapFailed)
      else if |wk.value| != 32 then Err(BadWrappingKey)
      else
        var r := OpenPie(p.c, PieHeader(actual), wk.value, data);
        if r == None then Err(UnwrapFailed) else Ok(r.value)
  }

  function DecodePw(p: Primitives, parts: seq<bytes>, actual: bytes, purpose: Option<bytes>, pw: Option<bytes>)
      : Result<bytes, PaserkError>
  {
    if |parts| != 3 then Err(Malformed)
    else if !TypeMatches(purpose, actual) then Err(WrongType)
    else if pw == None then Err(NeedsPassword)
    else
      var data :- DecodePart(parts[2]);
      OpenPbkw(p, PwHeader(actual), pw.value, 120, data)
  }

  function DecodeSeal(p: Primitives, parts: seq<bytes>, unsealing: Option<bytes>): Result<bytes, PaserkError>
    requires |parts| >= 3
  {
    if unsealing == None then Err(NeedsUnsealingKey)
    else
      var xsk := p.x25519Extract(unsealing.value);
      if xsk == None then Err(X25519Failed)
      else
        var data :- DecodePart(parts[2]);
        OpenSeal(p, xsk.value, data)
  }

  function DecodePlain(parts: seq<bytes>, purpose: Option<bytes>, wk: Option<bytes>, pw: Option<bytes>)
      : Result<bytes, PaserkError>
    requires |parts| >= 2
  {
    if |parts| != 3 then Err(Malformed)
    else if wk.Some? || pw.Some? then Err(WrongType)
    else if !(if purpose.Some? then purpose.value == parts[1] else IsPurpose(parts[1])) then Err(WrongType)
    else DecodePart(parts[2])
  }

  /** `decode_paserk` */
  function Decoded(p: Primitives, paserk: bytes, purpose: Option<bytes>, wk: Option<bytes>, pw: Option<bytes>,
                   unsealing: Option<bytes>)
      : Result<bytes, PaserkError>
  {
    if wk.Some? && pw.Some? then Err(Conflict)
    else
      var parts := Text.SplitDots(paserk);
      if |parts| < 3 || |parts| > 4 then Err(Malformed)
      else if parts[0] != B("k4") then Err(BadVersion)
      else
        var wrap, pass := WrappedPurpose(parts[1], B("-wrap")), WrappedPurpose(parts[1], B("-pw"));
        if wrap.Some? then DecodePie(p, parts, wrap.value, purpose, wk)
        else if pass.Some? then DecodePw(p, parts, pass.value, purpose, pw)
        else if parts[1] == B("seal") then DecodeSeal(p, parts, unsealing)
        else DecodePlain(parts, purpose, wk, pw)
  }

  // ---------- the stand-alone implementations ----------

  /** BLAKE2b takes keys of at most 64 bytes; on a longer one the library panics. */
  const KEY_LIMIT := 64

  /** The header a PIE text starts with, or nothing. */
  function PieHeaderOf(paserk: bytes): bytes {
    if PieHeader(B("local")) <= paserk then PieHeader(B("local"))
    else if PieHeader(B("secret")) <= paserk then PieHeader(B("secret"))
    else []
  }

  /** Header and data of a PIE text. */
  function PieData(paserk: bytes): Option<(bytes, bytes)> {
    var header := PieHeaderOf(paserk);
    if header == [] || DecodePart(paserk[|header|..]).Err? then None
    else Some((header, DecodePart(paserk[|header|..]).value))
  }

  /** `paserk_unwrap_pie` */
  function UnwrapPie(c: Crypto, wk: bytes, paserk: bytes): Result<bytes, PaserkError> {
    var header := PieHeaderOf(paserk);
    if header == [] then Err(Malformed)
    else
      var data :- DecodePart(paserk[|header|..]);
      var r := OpenPie(c, header, wk, data);
      if r == None then Err(UnwrapFailed) else Ok(r.value)
  }

  /** `paserk_unwrap_pbkw` */
  function UnwrapPbkw(p: Primitives, pw: bytes, paserk: bytes): Result<bytes, PaserkError> {
    var header := if PwHeader(B("local")) <= paserk then PwHeader(B("local"))
                  else if PwHeader(B("secret")) <= paserk then PwHeader(B("secret")) else [];
    if header == [] then Err(Malformed)
    else
      var data :- DecodePart(paserk[|header|..]);
      OpenPbkw(p, header, pw, 88, data)
  }

  /** `paserk_wrap_pie` */
  function WrapPie(c: Crypto, wk: bytes, target: bytes, purpose: bytes, nonce: Option<bytes>)
      : Result<bytes, PaserkError>
  {
    if !IsWrappable(purpose) then Err(BadPurpose)
    else if nonce == None then Err(NoEntropy)
    else Ok(PieText(c, purpose, wk, nonce.value, target))
  }

  /** `paserk_wrap_pbkw` */
  function WrapPbkw(p: Primitives, pw: bytes, target: bytes, purpose: bytes, mem: nat, time: nat, para: nat, r: Draws)
      : Result<bytes, PaserkError>
  {
    if !IsWrappable(purpose) then Err(BadPurpose)
    else if r.salt == None || r.nonce == None then Err(NoEntropy)
    else
      var q := PbkwParams(r.salt.value, mem, time, para, r.nonce.value);
      var k := Stretch(p, pw, q);
      if k == None then Err(Argon2Failed)
      else Ok(PwText(p, purpose, k.value, q, target))
  }
}
