/** The functions of src/jwe.rs as the code performs them: a header changed in place, buffers and key arrays filled. */
module JweCode {
  import opened Bytes
  import opened Json
  import opened Jwe
  import Base64
  import JweRelation
  import Kdf
  import Text

  /** A `serde_json::Value` behind a mutable reference. */
  class Header {
    var value: Value

    constructor (v: Value)
      ensures value == v
    {
      value := v;
    }

    /** `if let Some(obj) = headers.as_object_mut() { obj.insert(..) }` */
    method Insert(key: string, v: Value)
      modifies this
      ensures value == Inserted(old(value), key, v)
    {
      if value.Obj? {
        value := Obj(value.fields[key := v]);
      }
    }
  }

  // ---------- key management ----------

  method PreparePbes2Encrypt(headers: Header, r: Draws) returns (res: Result<(bytes, nat), JweError>)
    modifies headers
    ensures r.salt(16) == None ==> res == Err(NoEntropy) && headers.value == old(headers.value)
    ensures r.salt(16).Some? ==>
              res == Ok((r.salt(16).value, ITERATIONS)) &&
              headers.value == Inserted(Inserted(old(headers.value), "p2s", Str(B64(r.salt(16).value))), "p2c",
                                        Number(ITERATIONS))
  {
    var p2s := r.salt(16);
    if p2s == None {
      return Err(NoEntropy);
    }
    headers.Insert("p2s", Str(B64(p2s.value)));
    headers.Insert("p2c", Number(ITERATIONS));
    return Ok((p2s.value, ITERATIONS));
  }

  method DerivePbes2Kek(s: Suite, alg: bytes, w: WrapAlg, password: bytes, p2s: bytes, p2c: nat) returns (kek: bytes)
    requires s.KeyLaws()
    ensures kek == Pbes2Kek(s, alg, w, password, p2s, p2c)
  {
    hide Kdf.Output;
    var salt := alg;
    salt := salt + [0];
    salt := salt + p2s;
    var out := new byte[w.Length()](_ => 0);
    Kdf.Pbkdf2Manual(s.Prf(w.Digest()), w.Digest(), password, salt, p2c, out);
    kek := out[..];
  }

  method AgreeKey(s: Suite, z: bytes, len: nat, name: bytes) returns (key: bytes)
    requires s.KeyLaws() && len <= 64
    ensures key == AgreedKey(s, z, len, name)
  {
    hide Kdf.ConcatKdf;
    key := Kdf.ConcatKdfSha256(s.sha256, z, len * 8, name, [], []);
  }

  method WrapFreshKey(s: Suite, kek: bytes, enc: Enc, r: Draws) returns (res: Result<(bytes, bytes), JweError>)
    ensures res == WrapFresh(s, kek, enc, r)
  {
    hide AesKeyWrap;
    var cek := r.cek(enc.CekLength());
    if cek == None {
      return Err(NoEntropy);
    }
    var ek :- AesKeyWrap(s, kek, cek.value);
    return Ok((cek.value, ek));
  }

  method AgreeEcdh(s: Suite, wrap: Option<WrapAlg>, encName: bytes, enc: Enc, key: bytes, headers: Header, r: Draws)
      returns (res: Result<(bytes, bytes), JweError>)
    requires s.KeyLaws()
    modifies headers
    ensures Managed(res, headers.value) == ManageEcdh(s, wrap, encName, enc, key, old(headers.value), r)
  {
    hide B, AgreedKey, WrapFresh, Inserted, Suite.KeyLaws;
    var ephemeral := r.esk(32);
    if ephemeral == None {
      return Err(NoEntropy);
    }
    var public := s.x25519Public(ephemeral.value);
    if public == None {
      return Err(X25519Failed);
    }
    headers.Insert("epk", Obj(map["kty" := Str(B("OKP")), "crv" := Str(B("X25519")), "x" := Str(B64(public.value))]));
    var z := s.x25519Derive(ephemeral.value, key);
    if z == None {
      return Err(X25519Failed);
    }
    if wrap == None {
      var cek := AgreeKey(s, z.value, enc.CekLength(), encName);
      return Ok((cek, []));
    }
    var kek := AgreeKey(s, z.value, wrap.value.Length(), wrap.value.Name());
    res := WrapFreshKey(s, kek, enc, r);
  }

  /** `manage_cek_encrypt`: the header gains what the recipient needs, whether or not the call then succeeds. */
  method ManageCekEncrypt(s: Suite, alg: bytes, encName: bytes, key: bytes, headers: Header, r: Draws)
      returns (res: Result<(bytes, bytes), JweError>)
    requires s.KeyLaws()
    modifies headers
    ensures Managed(res, headers.value) == ManageEncrypt(s, alg, encName, key, old(headers.value), r)
  {
    hide ParseAlg, ParseEnc, WrapFresh, ManageEcdh, Pbes2Kek, Inserted, B64, Suite.KeyLaws;
    var enc := ParseEnc(encName);
    if enc == None {
      return Err(UnsupportedEnc);
    }
    var cekLen := enc.value.CekLength();
    match ParseAlg(alg)
    case None =>
      return Err(UnsupportedAlg);
    case Some(Dir) =>
      if |key| != cekLen {
        return Err(WrongKeyLength);
      }
      return Ok((key, []));
    case Some(Rsa) =>
      var cek := r.cek(cekLen);
      if cek == None {
        return Err(NoEntropy);
      }
      var ek := s.rsaEncrypt(alg, key, cek.value, r.seed);
      if ek == None {
        return Err(RsaFailed);
      }
      return Ok((cek.value, ek.value));
    case Some(Kw) =>
      res := WrapFreshKey(s, key, enc.value, r);
    case Some(EcdhDirect) =>
      res := AgreeEcdh(s, None, encName, enc.value, key, headers, r);
    case Some(EcdhWrapped(w)) =>
      res := AgreeEcdh(s, Some(w), encName, enc.value, key, headers, r);
    case Some(Pbes2(w)) =>
      var params := PreparePbes2Encrypt(headers, r);
      if params.Err? {
        return Err(params.error);
      }
      var kek := DerivePbes2Kek(s, alg, w, key, params.value.0, params.value.1);
      res := WrapFreshKey(s, kek, enc.value, r);
  }

  /** `manage_cek_decrypt` */
  method ManageCekDecrypt(s: Suite, alg: bytes, encName: bytes, key: bytes, ek: bytes, headers: Value)
      returns (res: Result<bytes, JweError>)
    requires s.KeyLaws()
    ensures res == ManageDecrypt(s, alg, encName, key, ek, headers)
  {
    hide ParseAlg, ParseEnc, AesKeyUnwrap, AgreedKey, Pbes2Kek, ReadEpk, ReadPbes2, Suite.KeyLaws;
    var enc := ParseEnc(encName);
    if enc == None {
      return Err(UnsupportedEnc);
    }
    var cekLen := enc.value.CekLength();
    match ParseAlg(alg)
    case None =>
      return Err(UnsupportedAlg);
    case Some(Dir) =>
      if ek != [] {
        return Err(NonEmptyKey);
      }
      return Ok(key);
    case Some(Rsa) =>
      var cek := s.rsaDecrypt(alg, key, ek);
      return if cek == None then Err(RsaFailed) else Ok(cek.value);
    case Some(Kw) =>
      return AesKeyUnwrap(s, key, ek);
    case Some(EcdhDirect) =>
      var sender :- ReadEpk(headers);
      var z := s.x25519Derive(key, sender);
      if z == None {
        return Err(X25519Failed);
      }
      var cek := AgreeKey(s, z.value, cekLen, encName);
      return Ok(cek);
    case Some(EcdhWrapped(w)) =>
      var sender :- ReadEpk(headers);
      var z := s.x25519Derive(key, sender);
      if z == None {
        return Err(X25519Failed);
      }
      var kek := AgreeKey(s, z.value, w.Length(), w.Name());
      return AesKeyUnwrap(s, kek, ek);
    case Some(Pbes2(w)) =>
      var params :- ReadPbes2(headers);
      var kek := DerivePbes2Kek(s, alg, w, key, params.0, params.1);
      return AesKeyUnwrap(s, kek, ek);
  }

  // ---------- content encryption ----------

  lemma FirstHalfTags(s: Suite, enc: Enc, cek: bytes, aad: bytes, iv: bytes, ct: bytes)
    requires s.KeyLaws()
    ensures forall mk, ek, al :: JweRelation.Halves(cek, mk, ek) && |al| == 8 && FromBE(al) == 8 * |aad| % U64 ==>
              CbcTag(s, enc, cek, aad, iv, ct) == s.hmac(enc.CekLength(), mk, aad + iv + ct + al)[..enc.CekLength() / 2]
  {
    hide JweRelation.Halves, FromBE, CbcTag;
    forall mk, ek, al | JweRelation.Halves(cek, mk, ek) && |al| == 8 && FromBE(al) == 8 * |aad| % U64
      ensures CbcTag(s, enc, cek, aad, iv, ct) == s.hmac(enc.CekLength(), mk, aad + iv + ct + al)[..enc.CekLength() / 2]
    {
      JweRelation.HalvesAre(cek, mk, ek);
      JweRelation.LengthIs(8 * |aad|, al);
      JweRelation.TagIs(s, enc, cek, aad, iv, ct, al, CbcTag(s, enc, cek, aad, iv, ct));
    }
  }

  /** The HMAC is keyed with the first half of the content key. */
  method CompositeTag(s: Suite, enc: Enc, cek: bytes, aad: bytes, iv: bytes, ct: bytes) returns (tag: bytes)
    requires s.KeyLaws()
    ensures tag == CbcTag(s, enc, cek, aad, iv, ct)
    ensures forall mk, ek, al :: JweRelation.Halves(cek, mk, ek) && |al| == 8 && FromBE(al) == 8 * |aad| % U64 ==>
              tag == s.hmac(enc.CekLength(), mk, aad + iv + ct + al)[..enc.CekLength() / 2]
  {
    hide FixedBE, FromBE;
    FirstHalfTags(s, enc, cek, aad, iv, ct);
    var keyLen := |cek| / 2;
    var macKey := cek[0..keyLen];
    assert macKey == cek[..keyLen];
    var al := FixedBE(|aad| * 8, 8);
    var macInput: bytes := [];
    macInput := macInput + aad;
    macInput := macInput + iv;
    macInput := macInput + ct;
    macInput := macInput + al;
    assert macInput == MacInput(aad, iv, ct);
    var fullTag := s.hmac(enc.Digest(), macKey, macInput);
    tag := fullTag[0..|fullTag| / 2];
    assert tag == fullTag[..enc.Digest() / 2];
  }

  /** `aes_gcm_encrypt` without a given nonce */
  method AesGcmEncrypt(s: Suite, key: bytes, plaintext: bytes, aad: bytes, r: Draws)
      returns (res: Result<(bytes, bytes, bytes), JweError>)
    ensures res == SealGcm(s, key, plaintext, aad, r)
  {
    if |key| != 16 && |key| != 32 {
      return Err(WrongKeyLength);
    }
    var nonce := r.nonce(12);
    if nonce == None {
      return Err(NoEntropy);
    }
    var inOut := plaintext;
    var sealed := s.gcmSeal(key, nonce.value, inOut, aad);
    if sealed == None {
      return Err(CipherFailed);
    }
    inOut := sealed.value.0;
    return Ok((inOut, sealed.value.1, nonce.value));
  }

  /** `aes_gcm_decrypt`: the tag is appended to the buffer that is opened. */
  method AesGcmDecrypt(s: Suite, key: bytes, nonce: bytes, ciphertext: bytes, tag: bytes, aad: bytes)
      returns (res: Result<bytes, JweError>)
    ensures res == OpenGcm(s, key, ciphertext, aad, nonce, tag)
  {
    if |key| != 16 && |key| != 32 {
      return Err(WrongKeyLength);
    }
    if |nonce| != 12 {
      return Err(BadIv);
    }
    var inOut := ciphertext;
    inOut := inOut + tag;
    var plaintext := s.gcmOpen(key, nonce, inOut, aad);
    return if plaintext == None then Err(CipherFailed) else Ok(plaintext.value);
  }

  /** `encrypt_xchacha20` and `c20p_encrypt` without a given nonce, for their nonce lengths 24 and 12 */
  method ChachaEncrypt(s: Suite, key: bytes, nonceLength: nat, plaintext: bytes, aad: bytes, r: Draws)
      returns (res: Result<(bytes, bytes, bytes), JweError>)
    ensures res == SealChacha(s, key, nonceLength, plaintext, aad, r)
  {
    if |key| != 32 {
      return Err(WrongKeyLength);
    }
    var nonce := r.nonce(nonceLength);
    if nonce == None {
      return Err(NoEntropy);
    }
    var buffer := plaintext;
    var sealed := s.chachaSeal(key, nonce.value, buffer, aad);
    buffer := sealed.0;
    return Ok((buffer, sealed.1, nonce.value));
  }

  /** `decrypt_xchacha20` and `c20p_decrypt` */
  method ChachaDecrypt(s: Suite, key: bytes, nonceLength: nat, ciphertext: bytes, aad: bytes, nonce: bytes, tag: bytes)
      returns (res: Result<bytes, JweError>)
    ensures res == OpenChacha(s, key, nonceLength, ciphertext, aad, nonce, tag)
  {
    if |key| != 32 {
      return Err(WrongKeyLength);
    }
    if |nonce| != nonceLength {
      return Err(BadIv);
    }
    if |tag| != 16 {
      return Err(BadTag);
    }
    var buffer := ciphertext;
    var opening := s.chachaOpen(key, nonce, buffer, tag, aad);
    if opening == None {
      return Err(CipherFailed);
    }
    buffer := opening.value;
    return Ok(buffer);
  }

  /** `encrypt_content` */
  method EncryptContent(s: Suite, enc: Enc, cek: bytes, payload: bytes, aad: bytes, r: Draws)
      returns (res: Result<(bytes, bytes, bytes), JweError>)
    requires s.KeyLaws()
    ensures res == SealContent(s, enc, cek, payload, aad, r)
  {
    hide CbcTag, Suite.KeyLaws;
    if enc.IsGcm() {
      res := AesGcmEncrypt(s, cek, payload, aad, r);
      return;
    } else if enc == XC20P {
      res := ChachaEncrypt(s, cek, 24, payload, aad, r);
      return;
    } else if enc == C20P {
      res := ChachaEncrypt(s, cek, 12, payload, aad, r);
      return;
    }
    var encKey := cek[|cek| / 2..];
    var nonce := r.nonce(16);
    if nonce == None {
      return Err(NoEntropy);
    }
    if !IsAesKey(encKey) {
      return Err(WrongKeyLength);
    }
    var ct := s.cbcEncrypt(encKey, nonce.value, payload);
    if ct == None {
      return Err(CipherFailed);
    }
    var tag := CompositeTag(s, enc, cek, aad, nonce.value, ct.value);
    return Ok((ct.value, tag, nonce.value));
  }

  /** `decrypt_content` */
  method DecryptContent(s: Suite, enc: Enc, cek: bytes, ct: bytes, aad: bytes, nonce: bytes, tag: bytes)
      returns (res: Result<bytes, JweError>)
    requires s.KeyLaws()
    ensures res == OpenContent(s, enc, cek, ct, aad, nonce, tag)
  {
    hide CbcTag, Suite.KeyLaws;
    if enc.IsGcm() {
      res := AesGcmDecrypt(s, cek, nonce, ct, tag, aad);
      return;
    } else if enc == XC20P {
      res := ChachaDecrypt(s, cek, 24, ct, aad, nonce, tag);
      return;
    } else if enc == C20P {
      res := ChachaDecrypt(s, cek, 12, ct, aad, nonce, tag);
      return;
    }
    var encKey := cek[|cek| / 2..];
    var expected := CompositeTag(s, enc, cek, aad, nonce, ct);
    if tag != expected {
      return Err(BadTag);
    }
    if !IsAesKey(encKey) {
      return Err(WrongKeyLength);
    }
    if |nonce| != 16 {
      return Err(BadIv);
    }
    var plaintext := s.cbcDecrypt(encKey, nonce, ct);
    return if plaintext == None then Err(CipherFailed) else Ok(plaintext.value);
  }

  // ---------- compact serialisation ----------

  /** `encrypt_compact` */
  method EncryptCompact(s: Suite, protected: Value, payload: bytes, key: bytes, r: Draws)
      returns (res: Result<bytes, JweError>)
    requires s.KeyLaws()
    ensures res == Compact(s, protected, payload, key, r)
  {
    hide ManageEncrypt, SealContent, ParseEnc, ParseAlg, Base64.Encode, Suite.KeyLaws;
    var alg, enc := protected.GetStr("alg"), protected.GetStr("enc");
    if alg == None {
      return Err(Missing("alg"));
    }
    if enc == None {
      return Err(Missing("enc"));
    }
    var header := new Header(protected);
    var keys := ManageCekEncrypt(s, alg.value, enc.value, key, header, r);
    if keys.Err? {
      return Err(keys.error);
    }
    if ParseEnc(enc.value) == None {
      return Err(UnsupportedEnc);
    }
    var encodedHeader := B64(s.toJson(header.value));
    var finalPayload := payload;
    if Zipped(header.value) {
      var compressed := s.deflate(payload);
      if compressed == None {
        return Err(CompressionFailed);
      }
      finalPayload := compressed.value;
    }
    var c := EncryptContent(s, ParseEnc(enc.value).value, keys.value.0, finalPayload, encodedHeader, r);
    if c.Err? {
      return Err(c.error);
    }
    var token := encodedHeader;
    token := token + [Text.DOT] + B64(keys.value.1);
    token := token + [Text.DOT] + B64(c.value.2);
    token := token + [Text.DOT] + B64(c.value.0);
    token := token + [Text.DOT] + B64(c.value.1);
    Text.FiveParts(encodedHeader, B64(keys.value.1), B64(c.value.2), B64(c.value.0), B64(c.value.1));
    return Ok(token);
  }

  /** `decrypt_compact` */
  method DecryptCompact(s: Suite, token: bytes, key: bytes) returns (res: Result<bytes, JweError>)
    requires s.KeyLaws()
    ensures res == Opened(s, token, key)
  {
    hide ManageDecrypt, OpenContent, ParseEnc, ParseAlg, Text.SplitDots, Base64.DecodePermissive, Suite.KeyLaws;
    var parts := Text.SplitDots(token);
    if |parts| != 5 {
      return Err(NotCompact);
    }
    var headerBytes := Base64.DecodePermissive(parts[0]);
    if headerBytes == None {
      return Err(BadPart("header"));
    }
    var header := s.fromJson(headerBytes.value);
    if header == None {
      return Err(BadPart("header"));
    }
    var encryptedKey := Base64.DecodePermissive(parts[1]);
    if encryptedKey == None {
      return Err(BadPart("key"));
    }
    var nonce := Base64.DecodePermissive(parts[2]);
    if nonce == None {
      return Err(BadPart("iv"));
    }
    var ciphertext := Base64.DecodePermissive(parts[3]);
    if ciphertext == None {
      return Err(BadPart("ciphertext"));
    }
    var tag := Base64.DecodePermissive(parts[4]);
    if tag == None {
      return Err(BadPart("tag"));
    }
    var aad := parts[0];
    var alg, enc := header.value.GetStr("alg"), header.value.GetStr("enc");
    if alg == None {
      return Err(Missing("alg"));
    }
    if enc == None {
      return Err(Missing("enc"));
    }
    var cek := ManageCekDecrypt(s, alg.value, enc.value, key, encryptedKey.value, header.value);
    if cek.Err? {
      return Err(cek.error);
    }
    if ParseEnc(enc.value) == None {
      return Err(UnsupportedEnc);
    }
    var plaintext := DecryptContent(s, ParseEnc(enc.value).value, cek.value, ciphertext.value, aad, nonce.value,
                                    tag.value);
    if plaintext.Err? {
      return Err(plaintext.error);
    }
    if Zipped(header.value) {
      var decompressed := s.inflate(plaintext.value);
      if decompressed == None {
        return Err(CompressionFailed);
      }
      return Ok(decompressed.value);
    }
    return Ok(plaintext.value);
  }
}
