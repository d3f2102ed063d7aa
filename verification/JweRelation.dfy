/**
 JWE compact serialisation as a relation over the library operations and the literal names, lengths and octets of
 RFC 7516 and RFC 7518, without any function of module Jwe; and the theorems that `encrypt_compact` and
 `decrypt_compact` (src/jwe.rs) compute exactly this relation.
 */
module JweRelation {
  import opened Base64
  import opened Base64Bits
  import opened Bytes
  import opened Json
  import opened Jwe
  import opened Kdf
  import Text

  // ---------- content encryption ----------

  /** Content key lengths in octets (section 5.1 of RFC 7518, and C20P and XC20P). */
  function KeyLength(enc: bytes): Option<nat> {
    if enc == B("A128GCM") then Some(16)
    else if enc == B("A192GCM") then Some(24)
    else if enc == B("A256GCM") then Some(32)
    else if enc == B("XC20P") || enc == B("C20P") then Some(32)
    else if enc == B("A128CBC-HS256") then Some(32)
    else if enc == B("A192CBC-HS384") then Some(48)
    else if enc == B("A256CBC-HS512") then Some(64)
    else None
  }

  predicate IsGcm(enc: bytes) {
    enc == B("A128GCM") || enc == B("A192GCM") || enc == B("A256GCM")
  }

  function NonceLength(enc: bytes): nat {
    if IsGcm(enc) then 12 else if enc == B("XC20P") then 24 else if enc == B("C20P") then 12 else 16
  }

  lemma EncTable(enc: bytes)
    ensures ParseEnc(enc).Some? <==> KeyLength(enc).Some?
    ensures ParseEnc(enc).Some? ==>
              var e := ParseEnc(enc).value;
              KeyLength(enc) == Some(e.CekLength()) && (IsGcm(enc) <==> e.IsGcm()) &&
              (!e.IsGcm() ==> (enc == B("XC20P") <==> e == XC20P)) &&
              (!e.IsGcm() && e != XC20P ==> (enc == B("C20P") <==> e == C20P)) &&
              NonceLength(enc) == if e.IsCbc() then 16 else if e == XC20P then 24 else 12
  {
    hide B;
    NamesDiffer();
  }

  lemma EncKnown(enc: bytes)
    ensures ParseEnc(enc).Some? <==> KeyLength(enc).Some?
    ensures ParseEnc(enc).Some? ==> KeyLength(enc) == Some(ParseEnc(enc).value.CekLength())
  {
    hide NonceLength, IsGcm;
    EncTable(enc);
  }

  lemma NamesDiffer()
    ensures B("XC20P") != B("C20P")
  {
    assert B("XC20P")[0] == 88 && B("C20P")[0] == 67;
  }

  /**
   The composite ciphers of section 5.2.2 of RFC 7518: the first half of the content key is the MAC key mk, the second
   the AES key ek; the tag is the first half of the HMAC over AAD, IV, ciphertext and the bit length al of the AAD.
   */
  ghost predicate Tagged(s: Suite, half: nat, mk: bytes, aad: bytes, iv: bytes, ct: bytes, al: bytes, tag: bytes)
    requires s.KeyLaws()
  {
    |al| == 8 && FromBE(al) == 8 * |aad| % 0x1_0000_0000_0000_0000 &&
    tag == s.hmac(2 * half, mk, aad + iv + ct + al)[..half]
  }

  predicate Halves(cek: bytes, mk: bytes, ek: bytes) {
    cek == mk + ek && |mk| <= |ek| <= |mk| + 1
  }

  ghost predicate SealedCbc(s: Suite, half: nat, mk: bytes, ek: bytes, p: bytes, aad: bytes, iv: bytes, ct: bytes,
                            al: bytes, tag: bytes)
    requires s.KeyLaws()
  {
    |ek| in {16, 24, 32} && s.cbcEncrypt(ek, iv, p) == Some(ct) && Tagged(s, half, mk, aad, iv, ct, al, tag)
  }

  ghost predicate OpenedCbc(s: Suite, half: nat, mk: bytes, ek: bytes, p: bytes, aad: bytes, iv: bytes, ct: bytes,
                            al: bytes, tag: bytes)
    requires s.KeyLaws()
  {
    |ek| in {16, 24, 32} && |iv| == 16 && s.cbcDecrypt(ek, iv, ct) == Some(p) &&
    Tagged(s, half, mk, aad, iv, ct, al, tag)
  }

  ghost predicate SealedAs(s: Suite, enc: bytes, cek: bytes, p: bytes, aad: bytes, iv: bytes, ct: bytes, tag: bytes)
    requires s.KeyLaws() && KeyLength(enc).Some?
  {
    if IsGcm(enc) then |cek| in {16, 32} && s.gcmSeal(cek, iv, p, aad) == Some((ct, tag))
    else if enc == B("XC20P") || enc == B("C20P") then |cek| == 32 && s.chachaSeal(cek, iv, p, aad) == (ct, tag)
    else exists mk, ek, al ::
      Halves(cek, mk, ek) && SealedCbc(s, KeyLength(enc).value / 2, mk, ek, p, aad, iv, ct, al, tag)
  }

  ghost predicate OpenedAs(s: Suite, enc: bytes, cek: bytes, p: bytes, aad: bytes, iv: bytes, ct: bytes, tag: bytes)
    requires s.KeyLaws() && KeyLength(enc).Some?
  {
    if IsGcm(enc) then |cek| in {16, 32} && |iv| == 12 && s.gcmOpen(cek, iv, ct + tag, aad) == Some(p)
    else if enc == B("XC20P") || enc == B("C20P") then
      |cek| == 32 && |iv| == NonceLength(enc) && |tag| == 16 && s.chachaOpen(cek, iv, ct, tag, aad) == Some(p)
    else exists mk, ek, al ::
      Halves(cek, mk, ek) && OpenedCbc(s, KeyLength(enc).value / 2, mk, ek, p, aad, iv, ct, al, tag)
  }

  lemma HalvesAre(cek: bytes, mk: bytes, ek: bytes)
    ensures Halves(cek, mk, ek) <==> mk == cek[..|cek| / 2] && ek == cek[|cek| / 2..]
  {
    assert cek == cek[..|cek| / 2] + cek[|cek| / 2..];
    if Halves(cek, mk, ek) {
      assert |mk| == |cek| / 2;
    }
  }

  lemma LengthIs(n: nat, al: bytes)
    ensures |al| == 8 && FromBE(al) == n % 0x1_0000_0000_0000_0000 <==> al == FixedBE(n, 8)
  {
    hide FixedBE, FromBE;
    FromFixedBE(n, 8);
    Jwe.Width8();
    FixedOfFrom(al);
    FixedOfFrom(FixedBE(n, 8));
  }

  /** The tag the module computes is the only one that is right for the first half of the key. */
  lemma TagIs(s: Suite, enc: Enc, cek: bytes, aad: bytes, iv: bytes, ct: bytes, al: bytes, tag: bytes)
    requires s.KeyLaws()
    ensures al == FixedBE(8 * |aad|, 8) ==>
              (Tagged(s, enc.CekLength() / 2, cek[..|cek| / 2], aad, iv, ct, al, tag) <==>
               tag == CbcTag(s, enc, cek, aad, iv, ct))
    ensures Tagged(s, enc.CekLength() / 2, cek[..|cek| / 2], aad, iv, ct, al, tag) ==> al == FixedBE(8 * |aad|, 8)
  {
    hide FixedBE, FromBE, Suite.KeyLaws;
    LengthIs(8 * |aad|, al);
    Regroup(aad, iv, ct, al);
  }

  lemma Regroup(a: bytes, b: bytes, c: bytes, d: bytes)
    ensures a + b + c + d == a + (b + (c + d))
  {
  }

  /** `encrypt_content` seals exactly as described, under the nonce it draws. */
  lemma SealIff(s: Suite, enc: bytes, cek: bytes, p: bytes, aad: bytes, r: Draws, ct: bytes, tag: bytes, iv: bytes)
    requires s.KeyLaws() && KeyLength(enc).Some?
    ensures ParseEnc(enc).Some?
    ensures SealContent(s, ParseEnc(enc).value, cek, p, aad, r) == Ok((ct, tag, iv))
       <==> r.nonce(NonceLength(enc)) == Some(iv) && SealedAs(s, enc, cek, p, aad, iv, ct, tag)
  {
    hide B, CbcTag, Tagged, Halves, ParseEnc, KeyLength, NonceLength, IsGcm, Suite.KeyLaws;
    EncTable(enc);
    var e := ParseEnc(enc).value;
    if e.IsCbc() {
      var mk, ek, al := cek[..|cek| / 2], cek[|cek| / 2..], FixedBE(8 * |aad|, 8);
      HalvesAre(cek, mk, ek);
      TagIs(s, e, cek, aad, iv, ct, al, tag);
      forall mk', ek', al' | Halves(cek, mk', ek') &&
                             SealedCbc(s, e.CekLength() / 2, mk', ek', p, aad, iv, ct, al', tag)
        ensures mk' == mk && ek' == ek && al' == al
      {
        HalvesAre(cek, mk', ek');
        TagIs(s, e, cek, aad, iv, ct, al', tag);
      }
      if SealCbc(s, e, cek, p, aad, r) == Ok((ct, tag, iv)) {
        assert SealedCbc(s, e.CekLength() / 2, mk, ek, p, aad, iv, ct, al, tag);
      }
    }
  }

  /** `decrypt_content` opens exactly what is described. */
  lemma OpenIff(s: Suite, enc: bytes, cek: bytes, p: bytes, aad: bytes, iv: bytes, ct: bytes, tag: bytes)
    requires s.KeyLaws() && KeyLength(enc).Some?
    ensures ParseEnc(enc).Some?
    ensures OpenContent(s, ParseEnc(enc).value, cek, ct, aad, iv, tag) == Ok(p)
       <==> OpenedAs(s, enc, cek, p, aad, iv, ct, tag)
  {
    hide B, CbcTag, Tagged, Halves, ParseEnc, KeyLength, NonceLength, IsGcm, Suite.KeyLaws;
    EncTable(enc);
    var e := ParseEnc(enc).value;
    if e.IsCbc() {
      var mk, ek, al := cek[..|cek| / 2], cek[|cek| / 2..], FixedBE(8 * |aad|, 8);
      HalvesAre(cek, mk, ek);
      TagIs(s, e, cek, aad, iv, ct, al, tag);
      forall mk', ek', al' | Halves(cek, mk', ek') &&
                             OpenedCbc(s, e.CekLength() / 2, mk', ek', p, aad, iv, ct, al', tag)
        ensures mk' == mk && ek' == ek && al' == al
      {
        HalvesAre(cek, mk', ek');
        TagIs(s, e, cek, aad, iv, ct, al', tag);
      }
      if OpenCbc(s, e, cek, ct, aad, iv, tag) == Ok(p) {
        assert OpenedCbc(s, e.CekLength() / 2, mk, ek, p, aad, iv, ct, al, tag);
      }
    }
  }

  // ---------- key management ----------

  predicate IsRsa(alg: bytes) {
    alg == B("RSA1_5") || alg == B("RSA-OAEP") || alg == B("RSA-OAEP-256") || alg == B("RSA-OAEP-384") ||
    alg == B("RSA-OAEP-512")
  }

  predicate IsKw(alg: bytes) {
    alg == B("A128KW") || alg == B("A192KW") || alg == B("A256KW")
  }

  /** The key wrapping an agreement or a password key is derived for. */
  function Wrapping(alg: bytes): Option<(bytes, nat)> {
    if alg == B("ECDH-ES+A128KW") then Some((B("A128KW"), 16))
    else if alg == B("ECDH-ES+A192KW") then Some((B("A192KW"), 24))
    else if alg == B("ECDH-ES+A256KW") then Some((B("A256KW"), 32))
    else if alg == B("PBES2-HS256+A128KW") then Some((B("A128KW"), 16))
    else if alg == B("PBES2-HS384+A192KW") then Some((B("A192KW"), 24))
    else if alg == B("PBES2-HS512+A256KW") then Some((B("A256KW"), 32))
    else None
  }

  predicate IsEcdh(alg: bytes) {
    alg == B("ECDH-ES") || alg == B("ECDH-ES+A128KW") || alg == B("ECDH-ES+A192KW") || alg == B("ECDH-ES+A256KW")
  }

  predicate IsPbes2(alg: bytes) {
    alg == B("PBES2-HS256+A128KW") || alg == B("PBES2-HS384+A192KW") || alg == B("PBES2-HS512+A256KW")
  }

  predicate Wraps(s: Suite, kek: bytes, cek: bytes, ek: bytes) {
    |kek| in {16, 32} && s.kwWrap(kek, cek) == Some(ek)
  }

  predicate Unwraps(s: Suite, kek: bytes, ek: bytes, cek: bytes) {
    |kek| in {16, 32} && |ek| >= 8 && s.kwUnwrap(kek, ek) == Some(cek)
  }

  /** Section 4.6.2 of RFC 7518, without party information: name is the algorithm the key is for. */
  ghost predicate Agreed(s: Suite, z: bytes, len: nat, name: bytes, k: bytes) {
    |k| == len && IsConcatKdf(s.sha256, z, 8 * len, name, [], [], k)
  }

  /** Section 4.8 of RFC 7518: the salt is the algorithm name, a zero octet and p2s; the digest is twice the key. */
  ghost predicate Stretched(s: Suite, alg: bytes, len: nat, password: bytes, p2s: bytes, count: nat, k: bytes) {
    |k| == len && len > 0 && (forall a, m :: s.Prf(2 * len)(a, m) == s.hmac(2 * len, a, m)) &&
    IsPbkdf2(s.Prf(2 * len), 2 * len, password, alg + [0] + p2s, if count == 0 then 1 else count, k)
  }

  ghost predicate WrappedFresh(s: Suite, kek: bytes, enc: bytes, r: Draws, cek: bytes, ek: bytes)
    requires KeyLength(enc).Some?
  {
    r.cek(KeyLength(enc).value) == Some(cek) && Wraps(s, kek, cek, ek)
  }

  function With(header: Value, edits: map<string, Value>): Value {
    if header.Obj? then Obj(header.fields + edits) else header
  }

  function WithEpk(header: Value, public: bytes): Value {
    With(header, map["epk" := Obj(map["kty" := Str(B("OKP")), "crv" := Str(B("X25519")),
                                      "x" := Str(Text64(public))])])
  }

  function WithSalt(header: Value, p2s: bytes): Value {
    With(header, map["p2s" := Str(Text64(p2s)), "p2c" := Number(8192)])
  }

  ghost predicate WrappedByAgreement(s: Suite, z: bytes, len: nat, name: bytes, enc: bytes, r: Draws, cek: bytes,
                                     ek: bytes)
    requires KeyLength(enc).Some?
  {
    exists kek :: Agreed(s, z, len, name, kek) && WrappedFresh(s, kek, enc, r, cek, ek)
  }

  ghost predicate WrappedByPassword(s: Suite, alg: bytes, len: nat, password: bytes, p2s: bytes, enc: bytes, r: Draws,
                                    cek: bytes, ek: bytes)
    requires KeyLength(enc).Some?
  {
    exists kek :: Stretched(s, alg, len, password, p2s, 8192, kek) && WrappedFresh(s, kek, enc, r, cek, ek)
  }

  /** The ECDH-ES family: an ephemeral key agrees on z and its public key enters the header. */
  ghost predicate KeysByAgreement(s: Suite, alg: bytes, enc: bytes, key: bytes, header: Value, r: Draws, cek: bytes,
                                  ek: bytes, h: Value)
    requires KeyLength(enc).Some?
  {
    var esk := r.esk(32);
    esk.Some? && s.x25519Public(esk.value).Some? && s.x25519Derive(esk.value, key).Some? &&
    h == WithEpk(header, s.x25519Public(esk.value).value) &&
    var z := s.x25519Derive(esk.value, key).value;
    if Wrapping(alg) == None then Agreed(s, z, KeyLength(enc).value, enc, cek) && ek == []
    else WrappedByAgreement(s, z, Wrapping(alg).value.1, Wrapping(alg).value.0, enc, r, cek, ek)
  }

  /** The PBES2 family: 16 octets of salt input and 8192 iterations, both put into the header. */
  ghost predicate KeysByPassword(s: Suite, alg: bytes, enc: bytes, key: bytes, header: Value, r: Draws, cek: bytes,
                                 ek: bytes, h: Value)
    requires KeyLength(enc).Some? && Wrapping(alg).Some?
  {
    r.salt(16).Some? && h == WithSalt(header, r.salt(16).value) &&
    WrappedByPassword(s, alg, Wrapping(alg).value.1, key, r.salt(16).value, enc, r, cek, ek)
  }

  ghost predicate KeysAs(s: Suite, alg: bytes, enc: bytes, key: bytes, header: Value, r: Draws, cek: bytes, ek: bytes,
                         h: Value)
    requires KeyLength(enc).Some?
  {
    var len := KeyLength(enc).value;
    if alg == B("dir") then |key| == len && cek == key && ek == [] && h == header
    else if IsRsa(alg) then r.cek(len) == Some(cek) && s.rsaEncrypt(alg, key, cek, r.seed) == Some(ek) && h == header
    else if IsKw(alg) then WrappedFresh(s, key, enc, r, cek, ek) && h == header
    else if IsEcdh(alg) then KeysByAgreement(s, alg, enc, key, header, r, cek, ek, h)
    else IsPbes2(alg) && KeysByPassword(s, alg, enc, key, header, r, cek, ek, h)
  }

  /** The sender's public key in the header. */
  function Sender(header: Value): Option<bytes> {
    if header.Get("epk").Some? && header.Get("epk").value.GetStr("x").Some?
    then DecodePermissive(header.Get("epk").value.GetStr("x").value) else None
  }

  ghost predicate KeyByAgreement(s: Suite, alg: bytes, enc: bytes, key: bytes, ek: bytes, header: Value, cek: bytes)
    requires KeyLength(enc).Some?
  {
    Sender(header).Some? && s.x25519Derive(key, Sender(header).value).Some? &&
    var z := s.x25519Derive(key, Sender(header).value).value;
    if Wrapping(alg) == None then Agreed(s, z, KeyLength(enc).value, enc, cek)
    else
      exists kek :: Agreed(s, z, Wrapping(alg).value.1, Wrapping(alg).value.0, kek) && Unwraps(s, kek, ek, cek)
  }

  ghost predicate KeyByPassword(s: Suite, alg: bytes, key: bytes, ek: bytes, header: Value, cek: bytes)
    requires Wrapping(alg).Some?
  {
    header.GetStr("p2s").Some? && DecodePermissive(header.GetStr("p2s").value).Some? && header.GetU64("p2c").Some? &&
    exists kek ::
      Stretched(s, alg, Wrapping(alg).value.1, key, DecodePermissive(header.GetStr("p2s").value).value,
                header.GetU64("p2c").value % 0x1_0000_0000, kek) && Unwraps(s, kek, ek, cek)
  }

  ghost predicate KeyAs(s: Suite, alg: bytes, enc: bytes, key: bytes, ek: bytes, header: Value, cek: bytes)
    requires KeyLength(enc).Some?
  {
    if alg == B("dir") then ek == [] && cek == key
    else if IsRsa(alg) then s.rsaDecrypt(alg, key, ek) == Some(cek)
    else if IsKw(alg) then Unwraps(s, key, ek, cek)
    else if IsEcdh(alg) then KeyByAgreement(s, alg, enc, key, ek, header, cek)
    else IsPbes2(alg) && KeyByPassword(s, alg, key, ek, header, cek)
  }

  lemma AgreedIs(s: Suite, z: bytes, len: nat, name: bytes, k: bytes)
    requires s.KeyLaws()
    ensures Agreed(s, z, len, name, k) <==> k == AgreedKey(s, z, len, name)
  {
    hide IsConcatKdf, ConcatStream, Output;
    ConcatByBlocks(s.sha256, z, 8 * len, name, [], []);
    ConcatSized(s.sha256, z, OtherInfo(name, [], [], 8 * len));
    OutputSized(ConcatStream(s.sha256, z, OtherInfo(name, [], [], 8 * len)), 32, len);
    if Agreed(s, z, len, name, k) {
      ConcatOnly(s.sha256, z, 8 * len, name, [], [], k);
    }
  }

  lemma StretchedIs(s: Suite, alg: bytes, w: WrapAlg, password: bytes, p2s: bytes, count: nat, k: bytes)
    requires s.KeyLaws()
    ensures Stretched(s, alg, w.Length(), password, p2s, count, k) <==> k == Pbes2Kek(s, alg, w, password, p2s, count)
  {
    hide IsPbkdf2, PbkdfStream, Output;
    var h, salt := 2 * w.Length(), alg + [0] + p2s;
    PbkdfByBits(s.Prf(h), h, password, salt, Rounds(count), w.Length());
    if Stretched(s, alg, w.Length(), password, p2s, count, k) {
      Pbkdf2Only(s.Prf(h), h, password, salt, Rounds(count), k);
    }
  }

  lemma AlgTable(alg: bytes)
    ensures match ParseAlg(alg)
            case None => alg != B("dir") && !IsRsa(alg) && !IsKw(alg) && !IsEcdh(alg) && !IsPbes2(alg)
            case Some(Dir) => alg == B("dir")
            case Some(Rsa) => alg != B("dir") && IsRsa(alg)
            case Some(Kw) => alg != B("dir") && !IsRsa(alg) && IsKw(alg)
            case Some(EcdhDirect) => alg == B("ECDH-ES") && IsEcdh(alg) && Wrapping(alg) == None
            case Some(EcdhWrapped(w)) => IsEcdh(alg) && Wrapping(alg) == Some((w.Name(), w.Length()))
            case Some(Pbes2(w)) => !IsEcdh(alg) && IsPbes2(alg) && Wrapping(alg) == Some((w.Name(), w.Length()))
    ensures var a := ParseAlg(alg);
            a.Some? && !a.value.Dir? && !a.value.Rsa? && !a.value.Kw? ==> alg != B("dir") && !IsRsa(alg) && !IsKw(alg)
  {
    hide B;
    AgreementNames();
  }

  lemma AgreementNames()
    ensures Wrapping(B("ECDH-ES")) == None
  {
    assert |B("ECDH-ES")| == 7;
  }

  lemma WrapIs(s: Suite, kek: bytes, enc: bytes, r: Draws, cek: bytes, ek: bytes)
    requires KeyLength(enc).Some?
    ensures ParseEnc(enc).Some? && (WrapFresh(s, kek, ParseEnc(enc).value, r) == Ok((cek, ek)) <==>
                                    WrappedFresh(s, kek, enc, r, cek, ek))
  {
    EncTable(enc);
  }

  lemma UnwrapIs(s: Suite, kek: bytes, ek: bytes, cek: bytes)
    ensures AesKeyUnwrap(s, kek, ek) == Ok(cek) <==> Unwraps(s, kek, ek, cek)
  {
  }

  lemma EpkIs(header: Value, public: bytes)
    ensures Inserted(header, "epk", Epk(public)) == WithEpk(header, public)
  {
  }

  lemma SaltIs(header: Value, p2s: bytes)
    ensures Inserted(Inserted(header, "p2s", Str(Jwe.B64(p2s))), "p2c", Number(ITERATIONS)) == WithSalt(header, p2s)
  {
    if header.Obj? {
      assert header.fields["p2s" := Str(Text64(p2s))]["p2c" := Number(8192)]
          == header.fields + map["p2s" := Str(Text64(p2s)), "p2c" := Number(8192)];
    }
  }

  /** `manage_cek_encrypt` succeeds exactly as described. */
  lemma KeysIff(s: Suite, alg: bytes, enc: bytes, key: bytes, header: Value, r: Draws, cek: bytes, ek: bytes, h: Value)
    requires s.KeyLaws()
    ensures ManageEncrypt(s, alg, enc, key, header, r) == Managed(Ok((cek, ek)), h)
       <==> KeyLength(enc).Some? && KeysAs(s, alg, enc, key, header, r, cek, ek, h)
  {
    hide B, ParseAlg, ParseEnc, KeyLength, Wrapping, IsRsa, IsKw, IsEcdh, IsPbes2, KeysByAgreement, KeysByPassword,
         ManageEcdh, ManagePbes2, WrapFresh, WrappedFresh, Suite.KeyLaws;
    EncTable(enc);
    AlgTable(alg);
    if ParseEnc(enc).Some? && ParseAlg(alg).Some? {
      match ParseAlg(alg).value
      case Dir =>
      case Rsa =>
      case Kw => WrapIs(s, key, enc, r, cek, ek);
      case EcdhDirect => AgreementIff(s, alg, None, enc, key, header, r, cek, ek, h);
      case EcdhWrapped(w) => AgreementIff(s, alg, Some(w), enc, key, header, r, cek, ek, h);
      case Pbes2(w) => PasswordIff(s, alg, w, enc, key, header, r, cek, ek, h);
    }
  }

  lemma AgreementIff(s: Suite, alg: bytes, wrap: Option<WrapAlg>, enc: bytes, key: bytes, header: Value, r: Draws,
                     cek: bytes, ek: bytes, h: Value)
    requires s.KeyLaws() && KeyLength(enc).Some?
    requires Wrapping(alg) == if wrap == None then None else Some((wrap.value.Name(), wrap.value.Length()))
    ensures ParseEnc(enc).Some?
    ensures ManageEcdh(s, wrap, enc, ParseEnc(enc).value, key, header, r) == Managed(Ok((cek, ek)), h)
       <==> KeysByAgreement(s, alg, enc, key, header, r, cek, ek, h)
  {
    hide B, ParseEnc, KeyLength, Wrapping, WrapFresh, WrappedFresh, Suite.KeyLaws, AgreedKey, Agreed, Inserted,
         WrappedByAgreement, WithEpk, Epk, WrapAlg.Name, WrapAlg.Length;
    EncKnown(enc);
    var e, esk := ParseEnc(enc).value, r.esk(32);
    if esk.Some? && s.x25519Public(esk.value).Some? && s.x25519Derive(esk.value, key).Some? {
      EpkIs(header, s.x25519Public(esk.value).value);
      var z := s.x25519Derive(esk.value, key).value;
      if wrap == None {
        AgreedIs(s, z, e.CekLength(), enc, cek);
      } else {
        AgreedWrapIff(s, z, wrap.value.Length(), wrap.value.Name(), enc, r, cek, ek);
      }
    }
  }

  lemma AgreedWrapIff(s: Suite, z: bytes, len: nat, name: bytes, enc: bytes, r: Draws, cek: bytes, ek: bytes)
    requires s.KeyLaws() && KeyLength(enc).Some?
    ensures ParseEnc(enc).Some?
    ensures WrapFresh(s, AgreedKey(s, z, len, name), ParseEnc(enc).value, r) == Ok((cek, ek))
       <==> WrappedByAgreement(s, z, len, name, enc, r, cek, ek)
  {
    hide ParseEnc, KeyLength, WrapFresh, WrappedFresh, Suite.KeyLaws, AgreedKey, Agreed;
    var k := AgreedKey(s, z, len, name);
    AgreedIs(s, z, len, name, k);
    WrapIs(s, k, enc, r, cek, ek);
    forall kek | Agreed(s, z, len, name, kek)
      ensures kek == k
    {
      AgreedIs(s, z, len, name, kek);
    }
  }

  lemma PasswordIff(s: Suite, alg: bytes, w: WrapAlg, enc: bytes, key: bytes, header: Value, r: Draws, cek: bytes,
                    ek: bytes, h: Value)
    requires s.KeyLaws() && KeyLength(enc).Some? && Wrapping(alg) == Some((w.Name(), w.Length()))
    ensures ParseEnc(enc).Some?
    ensures ManagePbes2(s, alg, w, ParseEnc(enc).value, key, header, r) == Managed(Ok((cek, ek)), h)
       <==> KeysByPassword(s, alg, enc, key, header, r, cek, ek, h)
  {
    hide B, ParseEnc, KeyLength, Wrapping, WrapFresh, WrappedFresh, Suite.KeyLaws, Pbes2Kek, Stretched, Inserted,
         WrappedByPassword, WithSalt, WrapAlg.Name, WrapAlg.Length;
    EncKnown(enc);
    if r.salt(16).Some? {
      var p2s := r.salt(16).value;
      SaltIs(header, p2s);
      StretchedWrapIff(s, alg, w, key, p2s, enc, r, cek, ek);
    }
  }

  lemma StretchedWrapIff(s: Suite, alg: bytes, w: WrapAlg, key: bytes, p2s: bytes, enc: bytes, r: Draws, cek: bytes,
                         ek: bytes)
    requires s.KeyLaws() && KeyLength(enc).Some?
    ensures ParseEnc(enc).Some?
    ensures WrapFresh(s, Pbes2Kek(s, alg, w, key, p2s, 8192), ParseEnc(enc).value, r) == Ok((cek, ek))
       <==> WrappedByPassword(s, alg, w.Length(), key, p2s, enc, r, cek, ek)
  {
    hide ParseEnc, KeyLength, WrapFresh, WrappedFresh, Suite.KeyLaws, Pbes2Kek, Stretched, WrapAlg.Length;
    var k := Pbes2Kek(s, alg, w, key, p2s, 8192);
    StretchedIs(s, alg, w, key, p2s, 8192, k);
    WrapIs(s, k, enc, r, cek, ek);
    forall kek | Stretched(s, alg, w.Length(), key, p2s, 8192, kek)
      ensures kek == k
    {
      StretchedIs(s, alg, w, key, p2s, 8192, kek);
    }
  }

  /** `manage_cek_decrypt` succeeds exactly as described. */
  lemma KeyIff(s: Suite, alg: bytes, enc: bytes, key: bytes, ek: bytes, header: Value, cek: bytes)
    requires s.KeyLaws()
    ensures ManageDecrypt(s, alg, enc, key, ek, header) == Ok(cek)
       <==> KeyLength(enc).Some? && KeyAs(s, alg, enc, key, ek, header, cek)
  {
    hide B, ParseAlg, ParseEnc, KeyLength, Wrapping, IsRsa, IsKw, IsEcdh, IsPbes2, KeyByAgreement, KeyByPassword,
         RecoverEcdh, RecoverPbes2, AesKeyUnwrap, Unwraps, Suite.KeyLaws;
    EncTable(enc);
    AlgTable(alg);
    if ParseEnc(enc).Some? && ParseAlg(alg).Some? {
      match ParseAlg(alg).value
      case Dir =>
      case Rsa =>
      case Kw => UnwrapIs(s, key, ek, cek);
      case EcdhDirect => AgreedKeyIff(s, alg, None, enc, key, ek, header, cek);
      case EcdhWrapped(w) => AgreedKeyIff(s, alg, Some(w), enc, key, ek, header, cek);
      case Pbes2(w) => PasswordKeyIff(s, alg, w, key, ek, header, cek);
    }
  }

  lemma AgreedKeyIff(s: Suite, alg: bytes, wrap: Option<WrapAlg>, enc: bytes, key: bytes, ek: bytes, header: Value,
                     cek: bytes)
    requires s.KeyLaws() && KeyLength(enc).Some?
    requires Wrapping(alg) == if wrap == None then None else Some((wrap.value.Name(), wrap.value.Length()))
    ensures ParseEnc(enc).Some?
    ensures RecoverEcdh(s, wrap, enc, ParseEnc(enc).value, key, ek, header) == Ok(cek)
       <==> KeyByAgreement(s, alg, enc, key, ek, header, cek)
  {
    hide B, ParseEnc, KeyLength, Wrapping, AesKeyUnwrap, Unwraps, Suite.KeyLaws, AgreedKey, Agreed, DecodePermissive,
         WrapAlg.Name, WrapAlg.Length;
    EncTable(enc);
    var e := ParseEnc(enc).value;
    if ReadEpk(header).Ok? && s.x25519Derive(key, ReadEpk(header).value).Some? {
      var z := s.x25519Derive(key, ReadEpk(header).value).value;
      if wrap == None {
        AgreedIs(s, z, e.CekLength(), enc, cek);
      } else {
        var kek := AgreedKey(s, z, wrap.value.Length(), wrap.value.Name());
        AgreedIs(s, z, wrap.value.Length(), wrap.value.Name(), kek);
        UnwrapIs(s, kek, ek, cek);
        forall kek' | Agreed(s, z, wrap.value.Length(), wrap.value.Name(), kek')
          ensures kek' == kek
        {
          AgreedIs(s, z, wrap.value.Length(), wrap.value.Name(), kek');
        }
      }
    }
  }

  lemma PasswordKeyIff(s: Suite, alg: bytes, w: WrapAlg, key: bytes, ek: bytes, header: Value, cek: bytes)
    requires s.KeyLaws() && Wrapping(alg) == Some((w.Name(), w.Length()))
    ensures RecoverPbes2(s, alg, w, key, ek, header) == Ok(cek) <==> KeyByPassword(s, alg, key, ek, header, cek)
  {
    hide B, Wrapping, AesKeyUnwrap, Unwraps, Suite.KeyLaws, Pbes2Kek, Stretched, DecodePermissive, WrapAlg.Name,
         WrapAlg.Length;
    var params := ReadPbes2(header);
    if params.Ok? {
      var kek := Pbes2Kek(s, alg, w, key, params.value.0, params.value.1);
      StretchedIs(s, alg, w, key, params.value.0, params.value.1, kek);
      UnwrapIs(s, kek, ek, cek);
      forall kek' | Stretched(s, alg, w.Length(), key, params.value.0, params.value.1, kek')
        ensures kek' == kek
      {
        StretchedIs(s, alg, w, key, params.value.0, params.value.1, kek');
      }
    }
  }

  // ---------- the token ----------

  /** What one encryption goes through. */
  datatype Message = Message(alg: bytes, enc: bytes, cek: bytes, ek: bytes, header: Value, body: bytes, iv: bytes,
                             ct: bytes, tag: bytes)

  predicate Deflated(header: Value) {
    header.GetStr("zip") == Some(B("DEF"))
  }

  /** The five parts, and the steps they come from; the AAD is the first part. */
  ghost predicate Written(s: Suite, protected: Value, payload: bytes, key: bytes, r: Draws, token: bytes, m: Message)
    requires s.KeyLaws()
  {
    protected.GetStr("alg") == Some(m.alg) && protected.GetStr("enc") == Some(m.enc) && KeyLength(m.enc).Some? &&
    KeysAs(s, m.alg, m.enc, key, protected, r, m.cek, m.ek, m.header) &&
    (if Deflated(m.header) then s.deflate(payload) == Some(m.body) else m.body == payload) &&
    r.nonce(NonceLength(m.enc)) == Some(m.iv) &&
    SealedAs(s, m.enc, m.cek, m.body, Text64(s.toJson(m.header)), m.iv, m.ct, m.tag) &&
    token == Text64(s.toJson(m.header)) + B(".") + Text64(m.ek) + B(".") + Text64(m.iv) + B(".") + Text64(m.ct) +
             B(".") + Text64(m.tag)
  }

  /** `encrypt_compact` returns a token exactly when it is the one these steps write. */
  lemma CompactIff(s: Suite, protected: Value, payload: bytes, key: bytes, r: Draws, token: bytes)
    requires s.KeyLaws()
    ensures Compact(s, protected, payload, key, r) == Ok(token)
       <==> exists m :: Written(s, protected, payload, key, r, token, m)
  {
    hide B, ManageEncrypt, SealContent, ParseEnc, KeyLength, NonceLength, KeysAs, SealedAs, TokenOf, Encode,
         Suite.KeyLaws;
    if protected.GetStr("alg").Some? && protected.GetStr("enc").Some? {
      var alg, enc := protected.GetStr("alg").value, protected.GetStr("enc").value;
      EncTable(enc);
      if Compact(s, protected, payload, key, r) == Ok(token) {
        var k := ManageEncrypt(s, alg, enc, key, protected, r);
        var aad := Text64(s.toJson(k.header));
        var body := Compress(s, k.header, payload).value;
        var c := SealContent(s, ParseEnc(enc).value, k.keys.value.0, body, aad, r).value;
        KeysIff(s, alg, enc, key, protected, r, k.keys.value.0, k.keys.value.1, k.header);
        SealIff(s, enc, k.keys.value.0, body, aad, r, c.0, c.1, c.2);
        TokenIs(aad, k.keys.value.1, c.2, c.0, c.1);
        assert Written(s, protected, payload, key, r, token,
                       Message(alg, enc, k.keys.value.0, k.keys.value.1, k.header, body, c.2, c.0, c.1));
      }
      if m :| Written(s, protected, payload, key, r, token, m) {
        KeysIff(s, alg, enc, key, protected, r, m.cek, m.ek, m.header);
        SealIff(s, enc, m.cek, m.body, Text64(s.toJson(m.header)), r, m.ct, m.tag, m.iv);
        TokenIs(Text64(s.toJson(m.header)), m.ek, m.iv, m.ct, m.tag);
      }
    }
  }

  lemma TokenIs(text: bytes, ek: bytes, iv: bytes, ct: bytes, tag: bytes)
    ensures TokenOf(text, ek, iv, ct, tag)
         == text + B(".") + Text64(ek) + B(".") + Text64(iv) + B(".") + Text64(ct) + B(".") + Text64(tag)
  {
    hide Encode;
    assert B(".") == [Text.DOT];
    Text.FiveParts(text, Text64(ek), Text64(iv), Text64(ct), Text64(tag));
  }

  /** What one decryption goes through; the texts are the parts between the dots. */
  datatype Reading = Reading(alg: bytes, enc: bytes, texts: seq<bytes>, json: bytes, header: Value, ek: bytes,
                             iv: bytes, ct: bytes, tag: bytes, cek: bytes, body: bytes)

  ghost predicate Read(s: Suite, token: bytes, key: bytes, payload: bytes, m: Reading)
    requires s.KeyLaws()
  {
    |m.texts| == 5 && (forall i :: 0 <= i < 5 ==> '.' as int !in m.texts[i]) &&
    token == m.texts[0] + B(".") + m.texts[1] + B(".") + m.texts[2] + B(".") + m.texts[3] + B(".") + m.texts[4] &&
    DecodePermissive(m.texts[0]) == Some(m.json) && s.fromJson(m.json) == Some(m.header) &&
    DecodePermissive(m.texts[1]) == Some(m.ek) && DecodePermissive(m.texts[2]) == Some(m.iv) &&
    DecodePermissive(m.texts[3]) == Some(m.ct) && DecodePermissive(m.texts[4]) == Some(m.tag) &&
    m.header.GetStr("alg") == Some(m.alg) && m.header.GetStr("enc") == Some(m.enc) && KeyLength(m.enc).Some? &&
    KeyAs(s, m.alg, m.enc, key, m.ek, m.header, m.cek) &&
    OpenedAs(s, m.enc, m.cek, m.body, m.texts[0], m.iv, m.ct, m.tag) &&
    if Deflated(m.header) then s.inflate(m.body) == Some(payload) else m.body == payload
  }

  /** `decrypt_compact` returns a payload exactly when it is the one these steps read. */
  lemma OpenedIff(s: Suite, token: bytes, key: bytes, payload: bytes)
    requires s.KeyLaws()
    ensures Opened(s, token, key) == Ok(payload) <==> exists m :: Read(s, token, key, payload, m)
  {
    hide B, ManageDecrypt, OpenContent, ParseEnc, KeyLength, KeyAs, OpenedAs, DecodePermissive, Text.SplitDots,
         Suite.KeyLaws;
    var parts := Text.SplitDots(token);
    if Opened(s, token, key) == Ok(payload) {
      var p := ParseCompact(s, token).value;
      var alg, enc := p.header.GetStr("alg").value, p.header.GetStr("enc").value;
      var cek := ManageDecrypt(s, alg, enc, key, p.ek, p.header).value;
      EncTable(enc);
      var body := OpenContent(s, ParseEnc(enc).value, cek, p.ct, p.headerText, p.nonce, p.tag).value;
      PartsAre(token, parts);
      KeyIff(s, alg, enc, key, p.ek, p.header, cek);
      OpenIff(s, enc, cek, body, p.headerText, p.nonce, p.ct, p.tag);
      assert Read(s, token, key, payload, Reading(alg, enc, parts, DecodePermissive(parts[0]).value, p.header, p.ek,
                                                  p.nonce, p.ct, p.tag, cek, body));
    }
    if m :| Read(s, token, key, payload, m) {
      PartsAre(token, m.texts);
      EncTable(m.enc);
      KeyIff(s, m.alg, m.enc, key, m.ek, m.header, m.cek);
      OpenIff(s, m.enc, m.cek, m.body, m.texts[0], m.iv, m.ct, m.tag);
    }
  }

  lemma PartsAre(token: bytes, t: seq<bytes>)
    ensures t == Text.SplitDots(token) && |t| == 5
       <==> |t| == 5 && (forall i :: 0 <= i < 5 ==> '.' as int !in t[i]) &&
            token == t[0] + B(".") + t[1] + B(".") + t[2] + B(".") + t[3] + B(".") + t[4]
  {
    hide Text.SplitDots, Text.JoinDots;
    assert B(".") == [Text.DOT];
    if |t| == 5 {
      assert t == [t[0], t[1], t[2], t[3], t[4]];
      Text.FiveParts(t[0], t[1], t[2], t[3], t[4]);
      if t == Text.SplitDots(token) {
        Text.SplitDotsJoin(token);
      } else if (forall i :: 0 <= i < 5 ==> '.' as int !in t[i]) && token == Text.JoinDots(t) {
        Text.SplitOfJoin(t);
      }
    }
  }
}
