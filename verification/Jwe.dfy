/**
 JWE compact serialisation (src/jwe.rs). RSA, AES key wrap, X25519, the content ciphers, DEFLATE and serde_json
 are library code and enter as functions with the laws stated in `Suite`; what this module states is the
 repository's own: which key each algorithm derives, what is authenticated, and how a token is laid out.
 */
module Jwe {
  import opened Base64
  import opened Bytes
  import opened Json
  import opened Kdf
  import Text

  const U32 := 0x1_0000_0000
  const U64 := 0x1_0000_0000_0000_0000

  /** Library operations; None where the library refuses. `rsaEncrypt` takes the random padding as its last argument. */
  datatype Suite = Suite(
    rsaEncrypt: (bytes, bytes, bytes, bytes) -> Option<bytes>,
    rsaDecrypt: (bytes, bytes, bytes) -> Option<bytes>,
    kwWrap: (bytes, bytes) -> Option<bytes>,
    kwUnwrap: (bytes, bytes) -> Option<bytes>,
    x25519Public: bytes -> Option<bytes>,
    x25519Derive: (bytes, bytes) -> Option<bytes>,
    sha256: bytes -> bytes,
    hmac: (nat, bytes, bytes) -> bytes,
    gcmSeal: (bytes, bytes, bytes, bytes) -> Option<(bytes, bytes)>,
    gcmOpen: (bytes, bytes, bytes, bytes) -> Option<bytes>,
    chachaSeal: (bytes, bytes, bytes, bytes) -> (bytes, bytes),
    chachaOpen: (bytes, bytes, bytes, bytes, bytes) -> Option<bytes>,
    cbcEncrypt: (bytes, bytes, bytes) -> Option<bytes>,
    cbcDecrypt: (bytes, bytes, bytes) -> Option<bytes>,
    deflate: bytes -> Option<bytes>,
    inflate: bytes -> Option<bytes>,
    toJson: Value -> bytes,
    fromJson: bytes -> Option<Value>)
  {
    ghost predicate Laws() {
      KeyLaws() && CipherLaws() && (forall p :: deflate(p).Some? ==> inflate(deflate(p).value) == Some(p))
    }

    ghost predicate KeyLaws() {
      (forall k, d :: kwWrap(k, d).Some? ==>
        |kwWrap(k, d).value| == |d| + 8 && kwUnwrap(k, kwWrap(k, d).value) == Some(d)) &&
      (forall m :: |sha256(m)| == 32) &&
      (forall h, k, m :: |hmac(h, k, m)| == h)
    }

    ghost predicate CipherLaws() {
      (forall k, n, p, a :: gcmSeal(k, n, p, a).Some? ==>
        gcmOpen(k, n, gcmSeal(k, n, p, a).value.0 + gcmSeal(k, n, p, a).value.1, a) == Some(p)) &&
      (forall k, n, p, a :: |chachaSeal(k, n, p, a).1| == 16 &&
        chachaOpen(k, n, chachaSeal(k, n, p, a).0, chachaSeal(k, n, p, a).1, a) == Some(p)) &&
      (forall k, iv, p :: cbcEncrypt(k, iv, p).Some? ==> cbcDecrypt(k, iv, cbcEncrypt(k, iv, p).value) == Some(p))
    }

    function Prf(h: nat): Kdf.Prf {
      (k: bytes, m: bytes) => hmac(h, k, m)
    }
  }

  datatype JweError =
    | Missing(field: string) | BadPart(field: string) | UnsupportedAlg | UnsupportedEnc | WrongKeyLength | NoEntropy
    | RsaFailed | BadKek | WrapFailed | X25519Failed | NonEmptyKey | CipherFailed | BadIv | BadTag | CompressionFailed
    | NotCompact

  /** The random draws of one encryption, by the number of bytes asked for. */
  datatype Draws = Draws(cek: nat -> Option<bytes>, seed: bytes, esk: nat -> Option<bytes>, salt: nat -> Option<bytes>,
                         nonce: nat -> Option<bytes>)
  {
    ghost predicate Sized() {
      (forall n :: cek(n).Some? ==> |cek(n).value| == n) && (forall n :: esk(n).Some? ==> |esk(n).value| == n) &&
      (forall n :: salt(n).Some? ==> |salt(n).value| == n) && (forall n :: nonce(n).Some? ==> |nonce(n).value| == n)
    }
  }

  // ---------- algorithm names ----------

  datatype WrapAlg = A128KW | A192KW | A256KW {
    function Name(): bytes {
      match this
      case A128KW => B("A128KW")
      case A192KW => B("A192KW")
      case A256KW => B("A256KW")
    }

    /** `get_key_wrap_length` */
    function Length(): nat {
      match this
      case A128KW => 16
      case A192KW => 24
      case A256KW => 32
    }

    /** The digest size of the PBES2 variant. */
    function Digest(): nat {
      2 * Length()
    }
  }

  datatype Alg = Dir | Rsa | Kw | EcdhDirect | EcdhWrapped(wrap: WrapAlg) | Pbes2(wrap: WrapAlg)

  function ParseAlg(alg: bytes): Option<Alg> {
    if alg == B("dir") then Some(Dir)
    else if alg == B("RSA1_5") || alg == B("RSA-OAEP") || alg == B("RSA-OAEP-256") ||
            alg == B("RSA-OAEP-384") || alg == B("RSA-OAEP-512") then Some(Rsa)
    else if alg == B("A128KW") || alg == B("A192KW") || alg == B("A256KW") then Some(Kw)
    else if alg == B("ECDH-ES") then Some(EcdhDirect)
    else if alg == B("ECDH-ES+A128KW") then Some(EcdhWrapped(A128KW))
    else if alg == B("ECDH-ES+A192KW") then Some(EcdhWrapped(A192KW))
    else if alg == B("ECDH-ES+A256KW") then Some(EcdhWrapped(A256KW))
    else if alg == B("PBES2-HS256+A128KW") then Some(Pbes2(A128KW))
    else if alg == B("PBES2-HS384+A192KW") then Some(Pbes2(A192KW))
    else if alg == B("PBES2-HS512+A256KW") then Some(Pbes2(A256KW))
    else None
  }

  datatype Enc = A128GCM | A192GCM | A256GCM | XC20P | C20P | A128CbcHs256 | A192CbcHs384 | A256CbcHs512 {
    /** `get_cek_length` */
    function CekLength(): nat {
      match this
      case A128GCM => 16
      case A192GCM => 24
      case A256GCM => 32
      case XC20P => 32
      case C20P => 32
      case A128CbcHs256 => 32
      case A192CbcHs384 => 48
      case A256CbcHs512 => 64
    }

    predicate IsCbc() {
      A128CbcHs256? || A192CbcHs384? || A256CbcHs512?
    }

    predicate IsGcm() {
      A128GCM? || A192GCM? || A256GCM?
    }

    /** The HMAC digest size of a composite cipher is the length of its key. */
    function Digest(): nat {
      CekLength()
    }
  }

  function ParseEnc(enc: bytes): Option<Enc> {
    if enc == B("A128GCM") then Some(A128GCM)
    else if enc == B("A192GCM") then Some(A192GCM)
    else if enc == B("A256GCM") then Some(A256GCM)
    else if enc == B("XC20P") then Some(XC20P)
    else if enc == B("C20P") then Some(C20P)
    else if enc == B("A128CBC-HS256") then Some(A128CbcHs256)
    else if enc == B("A192CBC-HS384") then Some(A192CbcHs384)
    else if enc == B("A256CBC-HS512") then Some(A256CbcHs512)
    else None
  }

  // ---------- key management ----------

  function B64(b: bytes): bytes {
    Encode(URL_SAFE_NO_PAD, b)
  }

  /** `as_object_mut` and `insert`: nothing happens to a value that is not an object. */
  function Inserted(header: Value, key: string, v: Value): Value {
    if header.Obj? then Obj(header.fields[key := v]) else header
  }

  function Epk(public: bytes): Value {
    Obj(map["kty" := Str(B("OKP")), "crv" := Str(B("X25519")), "x" := Str(B64(public))])
  }

  const ITERATIONS := 8192

  function AesKeyWrap(s: Suite, kek: bytes, data: bytes): Result<bytes, JweError> {
    if |kek| != 16 && |kek| != 32 then Err(BadKek)
    else if s.kwWrap(kek, data) == None then Err(WrapFailed)
    else Ok(s.kwWrap(kek, data).value)
  }

  function AesKeyUnwrap(s: Suite, kek: bytes, wrapped: bytes): Result<bytes, JweError> {
    if |kek| != 16 && |kek| != 32 then Err(BadKek)
    else if |wrapped| < 8 || s.kwUnwrap(kek, wrapped) == None then Err(WrapFailed)
    else Ok(s.kwUnwrap(kek, wrapped).value)
  }

  /** A key derived from an X25519 secret for the algorithm called name, with empty party information. */
  function AgreedKey(s: Suite, z: bytes, len: nat, name: bytes): bytes {
    ConcatKdf(s.sha256, z, len * 8, name, [], [])
  }

  /** The PBKDF2 salt of section 4.8.1.1 of RFC 7518. */
  function Pbes2Salt(alg: bytes, p2s: bytes): bytes {
    alg + [0] + p2s
  }

  function Pbes2Kek(s: Suite, alg: bytes, w: WrapAlg, password: bytes, p2s: bytes, p2c: nat): bytes {
    Output(PbkdfStream(s.Prf(w.Digest()), password, Pbes2Salt(alg, p2s), Rounds(p2c)), w.Digest(), w.Length())
  }

  /** The content key and the encrypted key, and the header the call leaves behind. */
  datatype Managed = Managed(keys: Result<(bytes, bytes), JweError>, header: Value)

  /** A random content key wrapped under kek. */
  function WrapFresh(s: Suite, kek: bytes, enc: Enc, r: Draws): Result<(bytes, bytes), JweError> {
    var cek := r.cek(enc.CekLength());
    if cek == None then Err(NoEntropy)
    else
      var ek :- AesKeyWrap(s, kek, cek.value);
      Ok((cek.value, ek))
  }

  function ManageRsa(s: Suite, alg: bytes, enc: Enc, key: bytes, r: Draws): Result<(bytes, bytes), JweError> {
    var cek := r.cek(enc.CekLength());
    if cek == None then Err(NoEntropy)
    else
      var ek := s.rsaEncrypt(alg, key, cek.value, r.seed);
      if ek == None then Err(RsaFailed) else Ok((cek.value, ek.value))
  }

  function ManageEcdh(s: Suite, wrap: Option<WrapAlg>, encName: bytes, enc: Enc, key: bytes, header: Value, r: Draws)
      : Managed
  {
    var esk := r.esk(32);
    if esk == None then Managed(Err(NoEntropy), header)
    else
      var epk := s.x25519Public(esk.value);
      if epk == None then Managed(Err(X25519Failed), header)
      else
        var h, z := Inserted(header, "epk", Epk(epk.value)), s.x25519Derive(esk.value, key);
        if z == None then Managed(Err(X25519Failed), h)
        else if wrap == None then Managed(Ok((AgreedKey(s, z.value, enc.CekLength(), encName), [])), h)
        else Managed(WrapFresh(s, AgreedKey(s, z.value, wrap.value.Length(), wrap.value.Name()), enc, r), h)
  }

  function ManagePbes2(s: Suite, alg: bytes, w: WrapAlg, enc: Enc, key: bytes, header: Value, r: Draws): Managed {
    var p2s := r.salt(16);
    if p2s == None then Managed(Err(NoEntropy), header)
    else
      var h := Inserted(Inserted(header, "p2s", Str(B64(p2s.value))), "p2c", Number(ITERATIONS));
      Managed(WrapFresh(s, Pbes2Kek(s, alg, w, key, p2s.value, ITERATIONS), enc, r), h)
  }

  /** `manage_cek_encrypt` */
  function ManageEncrypt(s: Suite, alg: bytes, encName: bytes, key: bytes, header: Value, r: Draws): Managed {
    var enc := ParseEnc(encName);
    if enc == None then Managed(Err(UnsupportedEnc), header)
    else
      match ParseAlg(alg)
      case None => Managed(Err(UnsupportedAlg), header)
      case Some(Dir) => Managed(if |key| != enc.value.CekLength() then Err(WrongKeyLength) else Ok((key, [])), header)
      case Some(Rsa) => Managed(ManageRsa(s, alg, enc.value, key, r), header)
      case Some(Kw) => Managed(WrapFresh(s, key, enc.value, r), header)
      case Some(EcdhDirect) => ManageEcdh(s, None, encName, enc.value, key, header, r)
      case Some(EcdhWrapped(w)) => ManageEcdh(s, Some(w), encName, enc.value, key, header, r)
      case Some(Pbes2(w)) => ManagePbes2(s, alg, w, enc.value, key, header, r)
  }

  function ReadEpk(header: Value): Result<bytes, JweError> {
    var epk := header.Get("epk");
    if epk == None || epk.value.GetStr("x") == None then Err(Missing("epk"))
    else if DecodePermissive(epk.value.GetStr("x").value) == None then Err(BadPart("epk"))
    else Ok(DecodePermissive(epk.value.GetStr("x").value).value)
  }

  function ReadPbes2(header: Value): Result<(bytes, nat), JweError> {
    var p2s, p2c := header.GetStr("p2s"), header.GetU64("p2c");
    if p2s == None then Err(Missing("p2s"))
    else if DecodePermissive(p2s.value) == None then Err(BadPart("p2s"))
    else if p2c == None then Err(Missing("p2c"))
    else Ok((DecodePermissive(p2s.value).value, p2c.value % U32))
  }

  function RecoverEcdh(s: Suite, wrap: Option<WrapAlg>, encName: bytes, enc: Enc, key: bytes, ek: bytes, header: Value)
      : Result<bytes, JweError>
  {
    var public :- ReadEpk(header);
    var z := s.x25519Derive(key, public);
    if z == None then Err(X25519Failed)
    else if wrap == None then Ok(AgreedKey(s, z.value, enc.CekLength(), encName))
    else AesKeyUnwrap(s, AgreedKey(s, z.value, wrap.value.Length(), wrap.value.Name()), ek)
  }

  function RecoverPbes2(s: Suite, alg: bytes, w: WrapAlg, key: bytes, ek: bytes, header: Value)
      : Result<bytes, JweError>
  {
    var params :- ReadPbes2(header);
    AesKeyUnwrap(s, Pbes2Kek(s, alg, w, key, params.0, params.1), ek)
  }

  /** `manage_cek_decrypt` */
  function ManageDecrypt(s: Suite, alg: bytes, encName: bytes, key: bytes, ek: bytes, header: Value)
      : Result<bytes, JweError>
  {
    var enc := ParseEnc(encName);
    if enc == None then Err(UnsupportedEnc)
    else
      match ParseAlg(alg)
      case None => Err(UnsupportedAlg)
      case Some(Dir) => if ek != [] then Err(NonEmptyKey) else Ok(key)
      case Some(Rsa) =>
        if s.rsaDecrypt(alg, key, ek) == None then Err(RsaFailed) else Ok(s.rsaDecrypt(alg, key, ek).value)
      case Some(Kw) => AesKeyUnwrap(s, key, ek)
      case Some(EcdhDirect) => RecoverEcdh(s, None, encName, enc.value, key, ek, header)
      case Some(EcdhWrapped(w)) => RecoverEcdh(s, Some(w), encName, enc.value, key, ek, header)
      case Some(Pbes2(w)) => RecoverPbes2(s, alg, w, key, ek, header)
  }

  // ---------- content encryption ----------

  /** AAD, IV, ciphertext and the length of the AAD in bits (section 5.2.2.1 of RFC 7518). */
  function MacInput(aad: bytes, iv: bytes, ct: bytes): bytes {
    aad + (iv + (ct + FixedBE(8 * |aad|, 8)))
  }

  function CbcTag(s: Suite, enc: Enc, cek: bytes, aad: bytes, iv: bytes, ct: bytes): bytes
    requires s.KeyLaws()
  {
    s.hmac(enc.Digest(), cek[..|cek| / 2], MacInput(aad, iv, ct))[..enc.Digest() / 2]
  }

  predicate IsAesKey(k: bytes) {
    |k| == 16 || |k| == 24 || |k| == 32
  }

  function SealGcm(s: Suite, cek: bytes, payload: bytes, aad: bytes, r: Draws)
      : Result<(bytes, bytes, bytes), JweError>
  {
    if |cek| != 16 && |cek| != 32 then Err(WrongKeyLength)
    else if r.nonce(12) == None then Err(NoEntropy)
    else
      var c := s.gcmSeal(cek, r.nonce(12).value, payload, aad);
      if c == None then Err(CipherFailed) else Ok((c.value.0, c.value.1, r.nonce(12).value))
  }

  function SealChacha(s: Suite, cek: bytes, nonceLength: nat, payload: bytes, aad: bytes, r: Draws)
      : Result<(bytes, bytes, bytes), JweError>
  {
    if |cek| != 32 then Err(WrongKeyLength)
    else if r.nonce(nonceLength) == None then Err(NoEntropy)
    else
      var n := r.nonce(nonceLength).value;
      var c := s.chachaSeal(cek, n, payload, aad);
      Ok((c.0, c.1, n))
  }

  function SealCbc(s: Suite, enc: Enc, cek: bytes, payload: bytes, aad: bytes, r: Draws)
      : Result<(bytes, bytes, bytes), JweError>
    requires s.KeyLaws()
  {
    if r.nonce(16) == None then Err(NoEntropy)
    else
      var encKey, iv := cek[|cek| / 2..], r.nonce(16).value;
      if !IsAesKey(encKey) then Err(WrongKeyLength)
      else
        var ct := s.cbcEncrypt(encKey, iv, payload);
        if ct == None then Err(CipherFailed) else Ok((ct.value, CbcTag(s, enc, cek, aad, iv, ct.value), iv))
  }

  /** `encrypt_content`: ciphertext, tag and nonce */
  function SealContent(s: Suite, enc: Enc, cek: bytes, payload: bytes, aad: bytes, r: Draws)
      : Result<(bytes, bytes, bytes), JweError>
    requires s.KeyLaws()
  {
    if enc.IsGcm() then SealGcm(s, cek, payload, aad, r)
    else if enc == XC20P then SealChacha(s, cek, 24, payload, aad, r)
    else if enc == C20P then SealChacha(s, cek, 12, payload, aad, r)
    else SealCbc(s, enc, cek, payload, aad, r)
  }

  function OpenGcm(s: Suite, cek: bytes, ct: bytes, aad: bytes, nonce: bytes, tag: bytes): Result<bytes, JweError> {
    if |cek| != 16 && |cek| != 32 then Err(WrongKeyLength)
    else if |nonce| != 12 then Err(BadIv)
    else if s.gcmOpen(cek, nonce, ct + tag, aad) == None then Err(CipherFailed)
    else Ok(s.gcmOpen(cek, nonce, ct + tag, aad).value)
  }

  function OpenChacha(s: Suite, cek: bytes, nonceLength: nat, ct: bytes, aad: bytes, nonce: bytes, tag: bytes)
      : Result<bytes, JweError>
  {
    if |cek| != 32 then Err(WrongKeyLength)
    else if |nonce| != nonceLength then Err(BadIv)
    else if |tag| != 16 then Err(BadTag)
    else if s.chachaOpen(cek, nonce, ct, tag, aad) == None then Err(CipherFailed)
    else Ok(s.chachaOpen(cek, nonce, ct, tag, aad).value)
  }

  function OpenCbc(s: Suite, enc: Enc, cek: bytes, ct: bytes, aad: bytes, nonce: bytes, tag: bytes)
      : Result<bytes, JweError>
    requires s.KeyLaws()
  {
    var encKey := cek[|cek| / 2..];
    if tag != CbcTag(s, enc, cek, aad, nonce, ct) then Err(BadTag)
    else if !IsAesKey(encKey) then Err(WrongKeyLength)
    else if |nonce| != 16 then Err(BadIv)
    else if s.cbcDecrypt(encKey, nonce, ct) == None then Err(CipherFailed)
    else Ok(s.cbcDecrypt(encKey, nonce, ct).value)
  }

  /** `decrypt_content` */
  function OpenContent(s: Suite, enc: Enc, cek: bytes, ct: bytes, aad: bytes, nonce: bytes, tag: bytes)
      : Result<bytes, JweError>
    requires s.KeyLaws()
  {
    if enc.IsGcm() then OpenGcm(s, cek, ct, aad, nonce, tag)
    else if enc == XC20P then OpenChacha(s, cek, 24, ct, aad, nonce, tag)
    else if enc == C20P then OpenChacha(s, cek, 12, ct, aad, nonce, tag)
    else OpenCbc(s, enc, cek, ct, aad, nonce, tag)
  }

  // ---------- compact serialisation ----------

  predicate Zipped(header: Value) {
    header.GetStr("zip") == Some(B("DEF"))
  }

  function Compress(s: Suite, header: Value, payload: bytes): Result<bytes, JweError> {
    if !Zipped(header) then Ok(payload)
    else if s.deflate(payload) == None then Err(CompressionFailed)
    else Ok(s.deflate(payload).value)
  }

  function Decompress(s: Suite, header: Value, plaintext: bytes): Result<bytes, JweError> {
    if !Zipped(header) then Ok(plaintext)
    else if s.inflate(plaintext) == None then Err(CompressionFailed)
    else Ok(s.inflate(plaintext).value)
  }

  function TokenOf(headerText: bytes, ek: bytes, nonce: bytes, ct: bytes, tag: bytes): bytes {
    Text.JoinDots([headerText, B64(ek), B64(nonce), B64(ct), B64(tag)])
  }

  /** What follows key management in `encrypt_compact`. */
  function Sealed(s: Suite, enc: Enc, header: Value, cek: bytes, ek: bytes, payload: bytes, r: Draws)
      : Result<bytes, JweError>
    requires s.KeyLaws()
  {
    var headerText := B64(s.toJson(header));
    var body :- Compress(s, header, payload);
    var c :- SealContent(s, enc, cek, body, headerText, r);
    Ok(TokenOf(headerText, ek, c.2, c.0, c.1))
  }

  /** `encrypt_compact` */
  function Compact(s: Suite, protected: Value, payload: bytes, key: bytes, r: Draws): Result<bytes, JweError>
    requires s.KeyLaws()
  {
    var alg, enc := protected.GetStr("alg"), protected.GetStr("enc");
    if alg == None then Err(Missing("alg"))
    else if enc == None then Err(Missing("enc"))
    else
      var m := ManageEncrypt(s, alg.value, enc.value, key, protected, r);
      if m.keys.Err? then Err(m.keys.error)
      else if ParseEnc(enc.value) == None then Err(UnsupportedEnc)
      else Sealed(s, ParseEnc(enc.value).value, m.header, m.keys.value.0, m.keys.value.1, payload, r)
  }

  /** A compact token as its reader sees it. */
  datatype Parts = Parts(headerText: bytes, header: Value, ek: bytes, nonce: bytes, ct: bytes, tag: bytes)

  function ParseCompact(s: Suite, token: bytes): Result<Parts, JweError> {
    var parts := Text.SplitDots(token);
    if |parts| != 5 then Err(NotCompact)
    else
      var headerBytes := DecodePermissive(parts[0]);
      if headerBytes == None then Err(BadPart("header"))
      else
        var header := s.fromJson(headerBytes.value);
        var ek, nonce := DecodePermissive(parts[1]), DecodePermissive(parts[2]);
        var ct, tag := DecodePermissive(parts[3]), DecodePermissive(parts[4]);
        if header == None then Err(BadPart("header"))
        else if ek == None then Err(BadPart("key"))
        else if nonce == None then Err(BadPart("iv"))
        else if ct == None then Err(BadPart("ciphertext"))
        else if tag == None then Err(BadPart("tag"))
        else Ok(Parts(parts[0], header.value, ek.value, nonce.value, ct.value, tag.value))
  }

  function OpenParts(s: Suite, p: Parts, key: bytes): Result<bytes, JweError>
    requires s.KeyLaws()
  {
    var alg, enc := p.header.GetStr("alg"), p.header.GetStr("enc");
    if alg == None then Err(Missing("alg"))
    else if enc == None then Err(Missing("enc"))
    else
      var cek :- ManageDecrypt(s, alg.value, enc.value, key, p.ek, p.header);
      if ParseEnc(enc.value) == None then Err(UnsupportedEnc)
      else
        var plaintext :- OpenContent(s, ParseEnc(enc.value).value, cek, p.ct, p.headerText, p.nonce, p.tag);
        Decompress(s, p.header, plaintext)
  }

  /** `decrypt_compact` */
  function Opened(s: Suite, token: bytes, key: bytes): Result<bytes, JweError>
    requires s.KeyLaws()
  {
    var p :- ParseCompact(s, token);
    OpenParts(s, p, key)
  }

  // ---------- key management round trip ----------

  /** The opening key belongs to the sealing key: the same secret, the RSA private key, or the X25519 private key. */
  ghost predicate Matching(s: Suite, alg: bytes, key: bytes, opening: bytes) {
    match ParseAlg(alg)
    case Some(Rsa) =>
      forall m, seed :: s.rsaEncrypt(alg, key, m, seed).Some? ==>
        s.rsaDecrypt(alg, opening, s.rsaEncrypt(alg, key, m, seed).value) == Some(m)
    case Some(EcdhDirect) => Agrees(s, opening, key)
    case Some(EcdhWrapped(_)) => Agrees(s, opening, key)
    case _ => opening == key
  }

  ghost predicate Agrees(s: Suite, opening: bytes, key: bytes) {
    forall esk :: s.x25519Public(esk).Some? && s.x25519Derive(esk, key).Some? ==>
      s.x25519Derive(opening, s.x25519Public(esk).value) == s.x25519Derive(esk, key)
  }

  lemma Permissive(b: bytes)
    ensures DecodePermissive(B64(b)) == Some(b)
  {
    hide Encode, DecodePermissive, Clean;
    EncodeIsClean(URL_SAFE_NO_PAD, b);
    PermissiveInverts(URL_SAFE_NO_PAD, b, B64(b));
  }

  lemma WrapRoundTrip(s: Suite, kek: bytes, data: bytes)
    requires s.KeyLaws() && AesKeyWrap(s, kek, data).Ok?
    ensures AesKeyUnwrap(s, kek, AesKeyWrap(s, kek, data).value) == Ok(data)
  {
  }

  lemma EpkReadBack(header: Value, public: bytes)
    requires header.Obj?
    ensures ReadEpk(Inserted(header, "epk", Epk(public))) == Ok(public)
  {
    hide B, Encode, DecodePermissive;
    Permissive(public);
  }

  lemma Pbes2ReadBack(header: Value, p2s: bytes)
    requires header.Obj?
    ensures ReadPbes2(Inserted(Inserted(header, "p2s", Str(B64(p2s))), "p2c", Number(ITERATIONS)))
         == Ok((p2s, ITERATIONS))
  {
    hide B, Encode, DecodePermissive;
    Permissive(p2s);
  }

  /** The edits key management makes to the header leave every other member alone. */
  lemma HeaderEdits(s: Suite, alg: bytes, encName: bytes, key: bytes, header: Value, r: Draws, name: string)
    requires name != "epk" && name != "p2s" && name != "p2c"
    ensures ManageEncrypt(s, alg, encName, key, header, r).header.Get(name) == header.Get(name)
  {
    hide B, Encode, ParseAlg, ParseEnc, WrapFresh, ManageRsa, Epk, AgreedKey, Pbes2Kek;
  }

  /** The recipient recovers the content key from the encrypted key and the edited header. */
  lemma CekRoundTrip(s: Suite, alg: bytes, encName: bytes, key: bytes, header: Value, r: Draws, opening: bytes)
    requires s.KeyLaws() && header.Obj? && Matching(s, alg, key, opening)
    requires ManageEncrypt(s, alg, encName, key, header, r).keys.Ok?
    ensures var m := ManageEncrypt(s, alg, encName, key, header, r);
            ManageDecrypt(s, alg, encName, opening, m.keys.value.1, m.header) == Ok(m.keys.value.0)
  {
    hide ParseAlg, ParseEnc, AesKeyWrap, AesKeyUnwrap, AgreedKey, Pbes2Kek, ReadEpk, ReadPbes2, Inserted, Epk, B64;
    var enc := ParseEnc(encName).value;
    match ParseAlg(alg)
    case Some(Dir) =>
    case Some(Rsa) =>
    case Some(Kw) =>
      WrapRoundTrip(s, key, r.cek(enc.CekLength()).value);
    case Some(EcdhDirect) =>
      EcdhRoundTrip(s, None, encName, enc, key, header, r, opening);
    case Some(EcdhWrapped(w)) =>
      EcdhRoundTrip(s, Some(w), encName, enc, key, header, r, opening);
    case Some(Pbes2(w)) =>
      Pbes2ReadBack(header, r.salt(16).value);
      WrapRoundTrip(s, Pbes2Kek(s, alg, w, key, r.salt(16).value, ITERATIONS), r.cek(enc.CekLength()).value);
  }

  lemma EcdhRoundTrip(s: Suite, wrap: Option<WrapAlg>, encName: bytes, enc: Enc, key: bytes, header: Value, r: Draws,
                      opening: bytes)
    requires s.KeyLaws() && header.Obj? && Agrees(s, opening, key)
    requires ManageEcdh(s, wrap, encName, enc, key, header, r).keys.Ok?
    ensures var m := ManageEcdh(s, wrap, encName, enc, key, header, r);
            RecoverEcdh(s, wrap, encName, enc, opening, m.keys.value.1, m.header) == Ok(m.keys.value.0)
  {
    hide AesKeyWrap, AesKeyUnwrap, AgreedKey, ReadEpk, Inserted, Epk;
    var esk := r.esk(32).value;
    EpkReadBack(header, s.x25519Public(esk).value);
    if wrap.Some? {
      var kek := AgreedKey(s, s.x25519Derive(esk, key).value, wrap.value.Length(), wrap.value.Name());
      WrapRoundTrip(s, kek, r.cek(enc.CekLength()).value);
    }
  }

  /** The algorithm name, which holds no zero octet, and p2s are determined by the PBKDF2 salt. */
  lemma Pbes2SaltInjective(a: bytes, p: bytes, a': bytes, p': bytes)
    requires (forall i :: 0 <= i < |a| ==> a[i] != 0) && (forall i :: 0 <= i < |a'| ==> a'[i] != 0)
    requires Pbes2Salt(a, p) == Pbes2Salt(a', p')
    ensures a == a' && p == p'
  {
    var t, t' := Pbes2Salt(a, p), Pbes2Salt(a', p');
    assert t[|a|] == 0 && t'[|a'|] == 0;
    assert forall i :: 0 <= i < |a| ==> t[i] == a[i];
    assert forall i :: 0 <= i < |a'| ==> t'[i] == a'[i];
    assert t[..|a|] == a && t'[..|a'|] == a' && t[|a| + 1..] == p && t'[|a'| + 1..] == p';
  }

  // ---------- content encryption: round trip and binding ----------

  lemma ContentRoundTrip(s: Suite, enc: Enc, cek: bytes, payload: bytes, aad: bytes, r: Draws)
    requires s.KeyLaws() && s.CipherLaws() && r.Sized() && SealContent(s, enc, cek, payload, aad, r).Ok?
    ensures var c := SealContent(s, enc, cek, payload, aad, r).value;
            OpenContent(s, enc, cek, c.0, aad, c.2, c.1) == Ok(payload)
  {
    hide CbcTag;
  }

  lemma Width8()
    ensures Exp256(8) == U64
  {
  }

  /**
   The authenticated string determines AAD, IV and ciphertext, for 16-byte IVs and AADs whose bit length fits 64 bits.
   */
  lemma MacInputInjective(aad: bytes, iv: bytes, ct: bytes, aad': bytes, iv': bytes, ct': bytes)
    requires |iv| == 16 && |iv'| == 16 && 8 * |aad| < U64 && 8 * |aad'| < U64
    requires MacInput(aad, iv, ct) == MacInput(aad', iv', ct')
    ensures aad == aad' && iv == iv' && ct == ct'
  {
    hide FixedBE;
    var m, m' := MacInput(aad, iv, ct), MacInput(aad', iv', ct');
    assert m[|m| - 8..] == FixedBE(8 * |aad|, 8) && m'[|m'| - 8..] == FixedBE(8 * |aad'|, 8);
    Width8();
    FixedBEInjective(8 * |aad|, 8 * |aad'|, 8);
    assert m[..|aad|] == aad && m'[..|aad'|] == aad';
    assert m[|aad|..|aad| + 16] == iv && m'[|aad'|..|aad'| + 16] == iv';
    assert m[|aad| + 16..|m| - 8] == ct && m'[|aad'| + 16..|m'| - 8] == ct';
  }

  /** Without the fixed IV length the authenticated string is ambiguous. */
  lemma MacInputAmbiguous(aad: bytes, iv: bytes, ct: bytes)
    requires ct != []
    ensures MacInput(aad, iv, ct) == MacInput(aad, iv + [ct[0]], ct[1..]) && iv != iv + [ct[0]]
  {
  }

  /** What the reader accepts has a nonce of its cipher's length; for the composite ciphers also a half-length tag. */
  lemma AcceptedShape(s: Suite, enc: Enc, cek: bytes, ct: bytes, aad: bytes, nonce: bytes, tag: bytes)
    requires s.KeyLaws() && OpenContent(s, enc, cek, ct, aad, nonce, tag).Ok?
    ensures |nonce| == if enc.IsCbc() then 16 else if enc == XC20P then 24 else 12
    ensures enc.IsCbc() ==> |tag| == enc.CekLength() / 2 && tag == CbcTag(s, enc, cek, aad, nonce, ct)
  {
    hide MacInput;
  }

  /**
   A composite message is accepted in place of another with the same tag only if header, IV and ciphertext are the
   same, unless the truncated HMAC collides on exactly these two strings.
   */
  lemma CbcBinding(s: Suite, enc: Enc, cek: bytes, aad: bytes, iv: bytes, ct: bytes, aad': bytes, iv': bytes,
                   ct': bytes)
    requires s.KeyLaws() && enc.IsCbc() && |iv| == 16 && 8 * |aad| < U64 && 8 * |aad'| < U64
    requires CbcTag(s, enc, cek, aad, iv, ct) == CbcTag(s, enc, cek, aad', iv', ct') ==>
             MacInput(aad, iv, ct) == MacInput(aad', iv', ct')
    requires OpenContent(s, enc, cek, ct', aad', iv', CbcTag(s, enc, cek, aad, iv, ct)).Ok?
    ensures aad' == aad && iv' == iv && ct' == ct
  {
    hide CbcTag, MacInput;
    AcceptedShape(s, enc, cek, ct', aad', iv', CbcTag(s, enc, cek, aad, iv, ct));
    MacInputInjective(aad, iv, ct, aad', iv', ct');
  }

  /** For AES-GCM the boundary between ciphertext and tag is not checked: moving bytes across it changes nothing. */
  lemma GcmBoundaryFree(s: Suite, enc: Enc, cek: bytes, ct: bytes, tag: bytes, ct': bytes, tag': bytes, aad: bytes,
                        nonce: bytes)
    requires s.KeyLaws() && enc.IsGcm() && ct + tag == ct' + tag'
    ensures OpenContent(s, enc, cek, ct, aad, nonce, tag) == OpenContent(s, enc, cek, ct', aad, nonce, tag')
  {
  }

  // ---------- the whole token ----------

  lemma TokenParses(s: Suite, header: Value, ek: bytes, nonce: bytes, ct: bytes, tag: bytes)
    requires s.fromJson(s.toJson(header)) == Some(header)
    ensures var text := B64(s.toJson(header));
            ParseCompact(s, TokenOf(text, ek, nonce, ct, tag)) == Ok(Parts(text, header, ek, nonce, ct, tag))
  {
    hide Text.NoDot, Text.SplitDots, Text.JoinDots, DecodePermissive, Encode;
    var text := B64(s.toJson(header));
    Text.EncodedNoDot(s.toJson(header));
    Text.EncodedNoDot(ek);
    Text.EncodedNoDot(nonce);
    Text.EncodedNoDot(ct);
    Text.EncodedNoDot(tag);
    Permissive(s.toJson(header));
    Permissive(ek);
    Permissive(nonce);
    Permissive(ct);
    Permissive(tag);
    Text.SplitOfJoin([text, B64(ek), B64(nonce), B64(ct), B64(tag)]);
  }

  /** The header a successful encryption authenticates and sends. */
  function SentHeader(s: Suite, protected: Value, key: bytes, r: Draws): Value {
    var alg, enc := protected.GetStr("alg"), protected.GetStr("enc");
    if alg == None || enc == None then protected else ManageEncrypt(s, alg.value, enc.value, key, protected, r).header
  }

  /**
   Whenever `encrypt_compact` succeeds, `decrypt_compact` with the matching key returns the payload, provided
   serde_json reads back the header it wrote.
   */
  lemma JweRoundTrip(s: Suite, protected: Value, payload: bytes, key: bytes, r: Draws, opening: bytes)
    requires s.Laws() && r.Sized() && Compact(s, protected, payload, key, r).Ok?
    requires Matching(s, protected.GetStr("alg").value, key, opening)
    requires var h := SentHeader(s, protected, key, r); s.fromJson(s.toJson(h)) == Some(h)
    ensures Opened(s, Compact(s, protected, payload, key, r).value, opening) == Ok(payload)
  {
    hide ManageEncrypt, ManageDecrypt, SealContent, OpenContent, ParseCompact, TokenOf, ParseEnc, ParseAlg, B64,
         Matching, Suite.Laws, Suite.KeyLaws, Suite.CipherLaws, Draws.Sized, Zipped;
    var alg, encName := protected.GetStr("alg").value, protected.GetStr("enc").value;
    LawsSplit(s);
    var enc := ParseEnc(encName).value;
    var m := ManageEncrypt(s, alg, encName, key, protected, r);
    KeptMembers(s, alg, encName, key, protected, r);
    CekRoundTrip(s, alg, encName, key, protected, r, opening);
    var text := B64(s.toJson(m.header));
    var body := Compress(s, m.header, payload).value;
    ContentRoundTrip(s, enc, m.keys.value.0, body, text, r);
    var c := SealContent(s, enc, m.keys.value.0, body, text, r).value;
    TokenParses(s, m.header, m.keys.value.1, c.2, c.0, c.1);
    ZipRoundTrip(s, m.header, payload);
  }

  lemma LawsSplit(s: Suite)
    requires s.Laws()
    ensures s.KeyLaws() && s.CipherLaws()
  {
  }

  lemma KeptMembers(s: Suite, alg: bytes, encName: bytes, key: bytes, header: Value, r: Draws)
    ensures var h := ManageEncrypt(s, alg, encName, key, header, r).header;
            h.GetStr("alg") == header.GetStr("alg") && h.GetStr("enc") == header.GetStr("enc") &&
            h.GetStr("zip") == header.GetStr("zip")
  {
    hide ManageEncrypt;
    HeaderEdits(s, alg, encName, key, header, r, "alg");
    HeaderEdits(s, alg, encName, key, header, r, "enc");
    HeaderEdits(s, alg, encName, key, header, r, "zip");
  }

  lemma ZipRoundTrip(s: Suite, header: Value, payload: bytes)
    requires s.Laws() && Compress(s, header, payload).Ok?
    ensures Decompress(s, header, Compress(s, header, payload).value) == Ok(payload)
  {
  }

  // ---------- which encryptions can succeed ----------

  /** AES key wrap and AES-GCM take 16- and 32-byte keys only, so everything that needs a 24-byte one is out. */
  predicate Supported(alg: Alg, enc: Enc, keyLength: nat) {
    enc != A192GCM &&
    match alg
    case Dir => keyLength == enc.CekLength()
    case Rsa => true
    case Kw => keyLength == 16 || keyLength == 32
    case EcdhDirect => true
    case EcdhWrapped(w) => w != A192KW
    case Pbes2(w) => w != A192KW
  }

  /** The content key is drawn, and AES key wrap takes it under any key of a size it knows. */
  ghost predicate WrapObliges(s: Suite, enc: Enc, r: Draws) {
    var cek := r.cek(enc.CekLength());
    cek.Some? && forall kek :: |kek| == 16 || |kek| == 32 ==> s.kwWrap(kek, cek.value).Some?
  }

  /** The ephemeral key is drawn, and X25519 takes it and the recipient's key. */
  predicate AgreeObliges(s: Suite, key: bytes, r: Draws) {
    var esk := r.esk(32);
    esk.Some? && s.x25519Public(esk.value).Some? && s.x25519Derive(esk.value, key).Some?
  }

  /** What key management asks of the library, branch by branch. */
  ghost predicate KeyObliges(s: Suite, alg: bytes, enc: Enc, key: bytes, r: Draws) {
    match ParseAlg(alg)
    case None => true
    case Some(Dir) => true
    case Some(Rsa) =>
      var cek := r.cek(enc.CekLength());
      cek.Some? && s.rsaEncrypt(alg, key, cek.value, r.seed).Some?
    case Some(Kw) => WrapObliges(s, enc, r)
    case Some(EcdhDirect) => AgreeObliges(s, key, r)
    case Some(EcdhWrapped(_)) => AgreeObliges(s, key, r) && WrapObliges(s, enc, r)
    case Some(Pbes2(_)) => r.salt(16).Some? && WrapObliges(s, enc, r)
  }

  /**
   What the content cipher asks of the library for this body and AAD: the nonce, and no refusal under a key it knows.
   */
  ghost predicate CipherObliges(s: Suite, enc: Enc, body: bytes, aad: bytes, r: Draws) {
    if enc.IsGcm() then
      r.nonce(12).Some? && forall k :: |k| == 16 || |k| == 32 ==> s.gcmSeal(k, r.nonce(12).value, body, aad).Some?
    else if enc == XC20P then r.nonce(24).Some?
    else if enc == C20P then r.nonce(12).Some?
    else r.nonce(16).Some? && forall k :: IsAesKey(k) ==> s.cbcEncrypt(k, r.nonce(16).value, body).Some?
  }

  /** The library refuses none of the calls this encryption makes with arguments of a size it knows. */
  ghost predicate Obliging(s: Suite, protected: Value, payload: bytes, key: bytes, r: Draws, enc: Enc)
    requires protected.GetStr("alg").Some?
  {
    var h := SentHeader(s, protected, key, r);
    var body := Compress(s, h, payload);
    KeyObliges(s, protected.GetStr("alg").value, enc, key, r) && body.Ok? &&
    CipherObliges(s, enc, body.value, B64(s.toJson(h)), r)
  }

  lemma AgreedKeyLength(s: Suite, z: bytes, len: nat, name: bytes)
    requires s.KeyLaws()
    ensures |AgreedKey(s, z, len, name)| == len
  {
    hide OtherInfo, Output, ConcatStream, BlockStream;
    var info := OtherInfo(name, [], [], len * 8);
    ConcatSized(s.sha256, z, info);
    OutputPrefix(ConcatStream(s.sha256, z, info), 32, len, len);
  }

  lemma Pbes2KekLength(s: Suite, alg: bytes, w: WrapAlg, password: bytes, p2s: bytes, p2c: nat)
    requires s.KeyLaws()
    ensures |Pbes2Kek(s, alg, w, password, p2s, p2c)| == w.Length()
  {
    hide Output;
    Pbkdf2Prefix(s.Prf(w.Digest()), w.Digest(), password, Pbes2Salt(alg, p2s), Rounds(p2c), w.Length(), w.Length());
  }

  lemma WrapSucceeds(s: Suite, kek: bytes, enc: Enc, r: Draws)
    requires r.Sized()
    ensures var k := WrapFresh(s, kek, enc, r);
            (k.Ok? ==> |k.value.0| == enc.CekLength() && (|kek| == 16 || |kek| == 32)) &&
            (WrapObliges(s, enc, r) && (|kek| == 16 || |kek| == 32) ==> k.Ok?)
  {
  }

  lemma EcdhSucceeds(s: Suite, wrap: Option<WrapAlg>, encName: bytes, enc: Enc, key: bytes, header: Value, r: Draws)
    requires s.KeyLaws() && r.Sized()
    ensures var k := ManageEcdh(s, wrap, encName, enc, key, header, r).keys;
            (k.Ok? ==> |k.value.0| == enc.CekLength() && wrap != Some(A192KW)) &&
            (AgreeObliges(s, key, r) && (wrap.Some? ==> WrapObliges(s, enc, r)) && wrap != Some(A192KW) ==> k.Ok?)
  {
    hide AgreedKey, WrapFresh, Inserted, Epk, B64, Suite.KeyLaws, Draws.Sized, WrapObliges;
    if r.esk(32).Some? && s.x25519Derive(r.esk(32).value, key).Some? {
      var z := s.x25519Derive(r.esk(32).value, key).value;
      if wrap == None {
        AgreedKeyLength(s, z, enc.CekLength(), encName);
      } else {
        AgreedKeyLength(s, z, wrap.value.Length(), wrap.value.Name());
        WrapSucceeds(s, AgreedKey(s, z, wrap.value.Length(), wrap.value.Name()), enc, r);
      }
    }
  }

  lemma ManageSucceeds(s: Suite, alg: bytes, encName: bytes, key: bytes, header: Value, r: Draws)
    requires s.KeyLaws() && r.Sized() && ParseAlg(alg).Some? && ParseEnc(encName).Some?
    ensures var k := ManageEncrypt(s, alg, encName, key, header, r).keys;
            var a, e := ParseAlg(alg).value, ParseEnc(encName).value;
            (k.Ok? ==> |k.value.0| == e.CekLength() && (e != A192GCM ==> Supported(a, e, |key|))) &&
            (KeyObliges(s, alg, e, key, r) && Supported(a, e, |key|) ==> k.Ok?)
  {
    hide ParseAlg, ParseEnc, AgreedKey, Pbes2Kek, Inserted, Epk, B64, ManageEcdh, ManageRsa, WrapFresh;
    hide Suite.KeyLaws, Draws.Sized, WrapObliges, AgreeObliges;
    var enc := ParseEnc(encName).value;
    match ParseAlg(alg).value
    case Dir =>
    case Rsa =>
      RsaSucceeds(s, alg, enc, key, r);
    case Kw =>
      WrapSucceeds(s, key, enc, r);
    case EcdhDirect =>
      EcdhSucceeds(s, None, encName, enc, key, header, r);
    case EcdhWrapped(w) =>
      EcdhSucceeds(s, Some(w), encName, enc, key, header, r);
    case Pbes2(w) =>
      if r.salt(16).Some? {
        Pbes2KekLength(s, alg, w, key, r.salt(16).value, ITERATIONS);
        WrapSucceeds(s, Pbes2Kek(s, alg, w, key, r.salt(16).value, ITERATIONS), enc, r);
      }
  }

  lemma RsaSucceeds(s: Suite, alg: bytes, enc: Enc, key: bytes, r: Draws)
    requires r.Sized()
    ensures var k, cek := ManageRsa(s, alg, enc, key, r), r.cek(enc.CekLength());
            (k.Ok? ==> |k.value.0| == enc.CekLength()) &&
            (k.Ok? <==> cek.Some? && s.rsaEncrypt(alg, key, cek.value, r.seed).Some?)
  {
  }

  lemma SealSucceeds(s: Suite, enc: Enc, cek: bytes, body: bytes, aad: bytes, r: Draws)
    requires s.KeyLaws() && r.Sized() && |cek| == enc.CekLength()
    ensures SealContent(s, enc, cek, body, aad, r).Ok? ==> enc != A192GCM
    ensures CipherObliges(s, enc, body, aad, r) && enc != A192GCM ==> SealContent(s, enc, cek, body, aad, r).Ok?
  {
    hide CbcTag;
  }

  /**
   Encryption under known algorithm names succeeds only for supported combinations: nothing that needs a 24-byte
   wrapping or GCM key can ever be encrypted. When the library obliges, being supported is all it takes.
   */
  lemma CompactSucceedsIff(s: Suite, protected: Value, payload: bytes, key: bytes, r: Draws, alg: Alg, enc: Enc)
    requires s.KeyLaws() && r.Sized()
    requires var a, e := protected.GetStr("alg"), protected.GetStr("enc");
             a.Some? && e.Some? && ParseAlg(a.value) == Some(alg) && ParseEnc(e.value) == Some(enc)
    ensures Compact(s, protected, payload, key, r).Ok? ==> Supported(alg, enc, |key|)
    ensures Obliging(s, protected, payload, key, r, enc) ==>
              (Compact(s, protected, payload, key, r).Ok? <==> Supported(alg, enc, |key|))
  {
    hide ManageEncrypt, SealContent, ParseAlg, ParseEnc, B64, TokenOf, Suite.KeyLaws, Draws.Sized, Zipped;
    hide KeyObliges, CipherObliges;
    var a, e := protected.GetStr("alg").value, protected.GetStr("enc").value;
    ManageSucceeds(s, a, e, key, protected, r);
    var m := ManageEncrypt(s, a, e, key, protected, r);
    var body := Compress(s, m.header, payload);
    if m.keys.Ok? && body.Ok? {
      SealSucceeds(s, enc, m.keys.value.0, body.value, B64(s.toJson(m.header)), r);
    }
  }

  /** Nor can a token that needs a 24-byte wrapping key be decrypted, whatever it contains. */
  lemma TwentyFourByteKeysNeverOpen(s: Suite, alg: bytes, encName: bytes, key: bytes, ek: bytes, header: Value)
    requires s.KeyLaws() && ParseAlg(alg).Some?
    requires match ParseAlg(alg).value
             case Kw => |key| == 24
             case EcdhWrapped(w) => w == A192KW
             case Pbes2(w) => w == A192KW
             case _ => false
    ensures ManageDecrypt(s, alg, encName, key, ek, header).Err?
  {
    hide ParseAlg, ParseEnc, AgreedKey, Pbes2Kek, ReadEpk, ReadPbes2, Suite.KeyLaws;
    var public, params := ReadEpk(header), ReadPbes2(header);
    if public.Ok? && s.x25519Derive(key, public.value).Some? {
      AgreedKeyLength(s, s.x25519Derive(key, public.value).value, 24, A192KW.Name());
    }
    if params.Ok? {
      Pbes2KekLength(s, alg, A192KW, key, params.value.0, params.value.1);
    }
  }
}
