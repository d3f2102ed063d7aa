/**
 The key material formats: what `extract_key_bytes` (src/jwk.rs) prints for a JWK and what the
 `parse_*` functions (src/key_utils.rs) read from DER, as functions of their inputs.
 */
module KeyFormats {
  import opened Bytes
  import opened Der
  import opened Json
  import Base64
  import RsaCrt
  import RsaMath

  datatype KeyError =
    | Missing(field: string)
    | BadBase64(field: string)
    | Unrecoverable(cause: RsaCrt.RecoveryError)
    | UnsupportedCurve
    | UnsupportedKeyType
    | BadLength
    | NotASequence
    | BadField(field: string, read: DerError)
    | WrongOid
    | UnknownCurve
    | InvalidPoint
    | UnknownFormat

  // ---------- JWK access ----------

  function B64(b: bytes): bytes {
    Base64.Encode(Base64.URL_SAFE_NO_PAD, b)
  }

  /** A JWK string member holding unpadded base64url. */
  function Member(jwk: Value, field: string): Result<bytes, KeyError> {
    var s := jwk.GetStr(field);
    if s == None then Err(Missing(field))
    else if Base64.Decode(Base64.URL_SAFE_NO_PAD, s.value) == None then Err(BadBase64(field))
    else Ok(Base64.Decode(Base64.URL_SAFE_NO_PAD, s.value).value)
  }

  function GetBigUint(jwk: Value, field: string): Result<nat, KeyError> {
    var b :- Member(jwk, field);
    Ok(FromBE(b))
  }

  /** The inputs for which `recover_primes` neither underflows, divides by zero nor loops for ever. */
  predicate Recoverable(jwk: Value) {
    var n, e, d := GetBigUint(jwk, "n"), GetBigUint(jwk, "e"), GetBigUint(jwk, "d");
    jwk.Get("p") == None && n.Ok? && e.Ok? && d.Ok? ==> n.value > 0 && d.value * e.value > 1
  }

  function RsaComponents(jwk: Value, rng: seq<seq<RsaMath.Fill>>): Result<RsaCrt.Components, KeyError>
    requires Recoverable(jwk)
  {
    var n :- GetBigUint(jwk, "n");
    var e :- GetBigUint(jwk, "e");
    var d :- GetBigUint(jwk, "d");
    if jwk.Get("p").Some? then
      var p :- GetBigUint(jwk, "p");
      var q :- GetBigUint(jwk, "q");
      var dp :- GetBigUint(jwk, "dp");
      var dq :- GetBigUint(jwk, "dq");
      var qi :- GetBigUint(jwk, "qi");
      Ok(RsaCrt.Components(n, e, d, p, q, dp, dq, qi))
    else
      var r := RsaCrt.RecoveredComponents(n, e, d, rng);
      if r.Err? then Err(Unrecoverable(r.error)) else Ok(r.value)
  }

  // ---------- object identifiers ----------

  const OID_RSA: bytes := [0x2a, 0x86, 0x48, 0x86, 0xf7, 0x0d, 0x01, 0x01, 0x01]
  const OID_EC: bytes := [0x2a, 0x86, 0x48, 0xce, 0x3d, 0x02, 0x01]
  const OID_P192: bytes := [0x2a, 0x86, 0x48, 0xce, 0x3d, 0x03, 0x01, 0x01]
  const OID_P256: bytes := [0x2a, 0x86, 0x48, 0xce, 0x3d, 0x03, 0x01, 0x07]
  const OID_P384: bytes := [0x2b, 0x81, 0x04, 0x00, 0x22]
  const OID_P521: bytes := [0x2b, 0x81, 0x04, 0x00, 0x23]
  const OID_SECP256K1: bytes := [0x2b, 0x81, 0x04, 0x00, 0x0a]
  const OID_ED25519: bytes := [0x2b, 0x65, 0x70]
  const OID_ED448: bytes := [0x2b, 0x65, 0x71]

  datatype Curve = P192 | P256 | P384 | P521 | Secp256k1 {
    function Name(): bytes {
      match this
      case P192 => B("P-192")
      case P256 => B("P-256")
      case P384 => B("P-384")
      case P521 => B("P-521")
      case Secp256k1 => B("secp256k1")
    }

    function Oid(): bytes {
      match this
      case P192 => OID_P192
      case P256 => OID_P256
      case P384 => OID_P384
      case P521 => OID_P521
      case Secp256k1 => OID_SECP256K1
    }

    function Size(): nat {
      match this
      case P192 => 24
      case P256 => 32
      case P384 => 48
      case P521 => 66
      case Secp256k1 => 32
    }
  }

  function CurveOfOid(oid: bytes): Option<Curve> {
    if oid == OID_P256 then Some(P256)
    else if oid == OID_P384 then Some(P384)
    else if oid == OID_P521 then Some(P521)
    else if oid == OID_SECP256K1 then Some(Secp256k1)
    else if oid == OID_P192 then Some(P192)
    else None
  }

  /** The curves a private key can be printed for. */
  function CurveOfName(name: bytes): Option<Curve> {
    if name == B("P-256") then Some(P256)
    else if name == B("P-384") then Some(P384)
    else if name == B("P-521") then Some(P521)
    else if name == B("secp256k1") then Some(Secp256k1)
    else None
  }

  // ---------- printed forms ----------

  function OidTlv(oid: bytes): bytes {
    Tlv(0x06, oid)
  }

  const RSA_ALGORITHM: bytes := OidTlv(OID_RSA) + [0x05, 0x00]

  function RsaFields(k: RsaCrt.Components): bytes {
    IntTlv(k.n) + (IntTlv(k.e) + (IntTlv(k.d) + (IntTlv(k.p) +
      (IntTlv(k.q) + (IntTlv(k.dp) + (IntTlv(k.dq) + IntTlv(k.qi)))))))
  }

  /** RSAPrivateKey of PKCS#1. */
  function RsaPrivateDer(k: RsaCrt.Components): bytes {
    Tlv(0x30, IntTlv(0) + RsaFields(k))
  }

  /** RSAPublicKey of PKCS#1. */
  function RsaPublicDer(n: nat, e: nat): bytes {
    Tlv(0x30, IntTlv(n) + IntTlv(e))
  }

  function BitString(content: bytes): bytes {
    Tlv(0x03, [0] + content)
  }

  /** SubjectPublicKeyInfo around an RSAPublicKey. */
  function RsaSpki(n: nat, e: nat): bytes {
    Tlv(0x30, Tlv(0x30, RSA_ALGORITHM) + BitString(RsaPublicDer(n, e)))
  }

  /** PrivateKeyInfo around a PKCS#1 key, as `wrap_pkcs1_as_pkcs8`. */
  function Pkcs8Rsa(pkcs1: bytes): bytes {
    Tlv(0x30, IntTlv(0) + (Tlv(0x30, RSA_ALGORITHM) + Tlv(0x04, pkcs1)))
  }

  function EcAlgorithm(c: Curve): bytes {
    Tlv(0x30, OidTlv(OID_EC) + OidTlv(c.Oid()))
  }

  function PublicPart(xy: Option<(bytes, bytes)>): bytes {
    if xy == None then [] else Tlv(0xA1, BitString([0x04] + (xy.value.0 + xy.value.1)))
  }

  /** ECPrivateKey of SEC 1 with its curve and, if known, its public point. */
  function Sec1(c: Curve, d: bytes, xy: Option<(bytes, bytes)>): bytes {
    Tlv(0x30, IntTlv(1) + (Tlv(0x04, d) + (Tlv(0xA0, OidTlv(c.Oid())) + PublicPart(xy))))
  }

  function Pkcs8Ec(c: Curve, d: bytes, xy: Option<(bytes, bytes)>): bytes {
    Tlv(0x30, IntTlv(0) + (EcAlgorithm(c) + Tlv(0x04, Sec1(c, d, xy))))
  }

  /** `validate_ec_coordinates` succeeds: every coordinate present has the curve's size. */
  predicate ValidEcCoordinates(jwk: Value) {
    jwk.GetStr("kty") == Some(B("EC")) ==>
      var c := CurveOfName(if jwk.GetStr("crv").Some? then jwk.GetStr("crv").value else []);
      c.Some? ==> forall f :: f in {"x", "y", "d"} && jwk.GetStr(f).Some? ==>
        Member(jwk, f).Ok? && |Member(jwk, f).value| == c.value.Size()
  }

  /** The components are needed only for an RSA private key. */
  predicate Printable(jwk: Value, publicOnly: bool) {
    jwk.GetStr("kty") == Some(B("RSA")) && !publicOnly && jwk.Get("d").Some? ==> Recoverable(jwk)
  }

  /** `extract_key_bytes` */
  function KeyBytes(jwk: Value, publicOnly: bool, rng: seq<seq<RsaMath.Fill>>): Result<bytes, KeyError>
    requires Printable(jwk, publicOnly)
  {
    var kty := if jwk.GetStr("kty").Some? then jwk.GetStr("kty").value else [];
    if kty == B("oct") then Member(jwk, "k")
    else if kty == B("OKP") then
      if !publicOnly && jwk.GetStr("d").Some? then Member(jwk, "d") else Member(jwk, "x")
    else if kty == B("RSA") then
      var n :- GetBigUint(jwk, "n");
      var e :- GetBigUint(jwk, "e");
      if !publicOnly && jwk.Get("d").Some? then
        var k :- RsaComponents(jwk, rng);
        Ok(RsaPrivateDer(k))
      else Ok(RsaSpki(n, e))
    else if kty == B("EC") then
      if !publicOnly && jwk.GetStr("d").Some? then
        var d :- Member(jwk, "d");
        var name := jwk.GetStr("crv");
        if name == None then Err(Missing("crv"))
        else
          var c := CurveOfName(name.value);
          if c == None then Err(UnsupportedCurve)
          else
            var x, y := Member(jwk, "x"), Member(jwk, "y");
            Ok(Pkcs8Ec(c.value, d, if x.Ok? && y.Ok? then Some((x.value, y.value)) else None))
      else if jwk.GetStr("x").Some? && jwk.GetStr("y").Some? then
        var x :- Member(jwk, "x");
        var y :- Member(jwk, "y");
        Ok([0x04] + x + y)
      else Err(Missing("x"))
    else Err(UnsupportedKeyType)
  }

  // ---------- parsed forms ----------

  /** A field read with its error labelled, and the input after it. */
  function Field<T>(r: Read<T>, name: string): Result<(T, bytes), KeyError> {
    if r.result.Err? then Err(BadField(name, r.result.error)) else Ok((r.result.value, r.rest))
  }

  function RsaPrivateJwk(n: bytes, e: bytes, d: bytes, p: bytes, q: bytes, dp: bytes, dq: bytes, qi: bytes): Value {
    Obj(map["kty" := Str(B("RSA")), "n" := Str(B64(n)), "e" := Str(B64(e)), "d" := Str(B64(d)),
            "p" := Str(B64(p)), "q" := Str(B64(q)), "dp" := Str(B64(dp)), "dq" := Str(B64(dq)), "qi" := Str(B64(qi))])
  }

  function ParseRsaFields(input: bytes): Result<Value, KeyError> {
    var (n, i1) :- Field(ReadInteger(input), "n");
    var (e, i2) :- Field(ReadInteger(i1), "e");
    var (d, i3) :- Field(ReadInteger(i2), "d");
    var (p, i4) :- Field(ReadInteger(i3), "p");
    var (q, i5) :- Field(ReadInteger(i4), "q");
    var (dp, i6) :- Field(ReadInteger(i5), "dp");
    var (dq, i7) :- Field(ReadInteger(i6), "dq");
    var (qi, i8) :- Field(ReadInteger(i7), "qi");
    Ok(RsaPrivateJwk(n, e, d, p, q, dp, dq, qi))
  }

  function ParseRsaPrivate(der: bytes): Result<Value, KeyError>
    decreases |der|
  {
    var top := ReadSequence(der);
    if top.result.Err? then Err(NotASequence)
    else
      var (version, rest) :- Field(ReadInteger(top.result.value), "Version");
      if rest != [] && rest[0] == 0x30 then
        var (algo, i1) :- Field(ReadSequence(rest), "AlgoId");
        var (oid, _) :- Field(ReadOid(algo), "OID");
        if oid != OID_RSA then Err(WrongOid)
        else
          var (inner, _) :- Field(ReadOctets(i1), "PrivateKey octets");
          InnerShorter(der);
          ParseRsaPrivate(inner)
      else ParseRsaFields(rest)
  }

  /** The octet string found by `parse_rsa_private` is shorter than its input: the recursion ends. */
  lemma InnerShorter(der: bytes)
    requires ReadSequence(der).result.Ok?
    ensures var top := ReadSequence(der).result.value;
            var i0 := ReadInteger(top).rest;
            var i1 := ReadSequence(i0).rest;
            |top| < |der| && |i0| <= |top| && |i1| <= |i0| &&
            (ReadOctets(i1).result.Ok? ==> |ReadOctets(i1).result.value| < |der|)
  {
    var top := ReadSequence(der).result.value;
    TaggedConfined(0x30, der);
    TaggedConfined(0x02, top);
    var i0 := ReadInteger(top).rest;
    TaggedConfined(0x30, i0);
    TaggedConfined(0x04, ReadSequence(i0).rest);
  }

  function RsaPublicJwk(n: bytes, e: bytes): Value {
    Obj(map["kty" := Str(B("RSA")), "n" := Str(B64(n)), "e" := Str(B64(e))])
  }

  function ParseRsaPublic(der: bytes): Result<Value, KeyError> {
    var (top, _) :- Field(ReadSequence(der), "");
    var fields :- RsaPublicFields(top);
    var (n, i1) :- Field(ReadInteger(fields), "");
    var (e, _) :- Field(ReadInteger(i1), "");
    Ok(RsaPublicJwk(n, e))
  }

  /** The contents of the RSAPublicKey, unwrapped from a SubjectPublicKeyInfo if there is one. */
  function RsaPublicFields(top: bytes): Result<bytes, KeyError> {
    if top != [] && top[0] == 0x30 then
      var (_, i1) :- Field(ReadSequence(top), "");
      var (bits, _) :- Field(ReadBits(i1), "");
      var (inner, _) :- Field(ReadSequence(bits), "");
      Ok(inner)
    else Ok(top)
  }

  function OkpName(oid: bytes): Option<bytes> {
    if oid == OID_ED25519 then Some(B("Ed25519")) else if oid == OID_ED448 then Some(B("Ed448")) else None
  }

  function ParseOkpPublic(der: bytes): Result<Value, KeyError> {
    var (top, _) :- Field(ReadSequence(der), "");
    var (algo, i1) :- Field(ReadSequence(top), "");
    var (oid, _) :- Field(ReadOid(algo), "");
    if OkpName(oid) == None then Err(WrongOid)
    else
      var (bits, _) :- Field(ReadBits(i1), "");
      Ok(Obj(map["kty" := Str(B("OKP")), "crv" := Str(OkpName(oid).value), "x" := Str(B64(bits))]))
  }

  /** The key pair library: the Ed25519 public key of a seed, or None if the seed is rejected. */
  type Ed25519 = bytes -> Option<bytes>

  function ParseOkpPrivate(der: bytes, ed25519: Ed25519): Result<Value, KeyError> {
    var (top, _) :- Field(ReadSequence(der), "");
    var (_, i0) :- Field(ReadInteger(top), "");
    var (algo, i1) :- Field(ReadSequence(i0), "");
    var (oid, _) :- Field(ReadOid(algo), "");
    if OkpName(oid) == None then Err(WrongOid)
    else
      var (outer, _) :- Field(ReadOctets(i1), "");
      var (d, _) :- Field(ReadOctets(outer), "");
      var base := map["kty" := Str(B("OKP")), "crv" := Str(OkpName(oid).value), "d" := Str(B64(d))];
      if oid == OID_ED25519 && ed25519(d).Some? then Ok(Obj(base["x" := Str(B64(ed25519(d).value))]))
      else Ok(Obj(base))
  }

  function ParseEcPublic(der: bytes): Result<Value, KeyError> {
    var (top, _) :- Field(ReadSequence(der), "");
    var (algo, i1) :- Field(ReadSequence(top), "");
    var (_, a1) :- Field(ReadOid(algo), "");
    var (oid, _) :- Field(ReadOid(a1), "");
    var c := CurveOfOid(oid);
    if c == None then Err(UnknownCurve)
    else
      var (bits, _) :- Field(ReadBits(i1), "");
      var len := c.value.Size();
      if |bits| < 1 + 2 * len || bits[0] != 0x04 then Err(InvalidPoint)
      else Ok(Obj(map["kty" := Str(B("EC")), "crv" := Str(c.value.Name()),
                      "x" := Str(B64(bits[1..1 + len])), "y" := Str(B64(bits[1 + len..1 + 2 * len]))]))
  }

  /** What the PKCS#8 header says: the curve, if any, and the bytes of the SEC 1 structure. */
  function EcHeader(der: bytes): (Option<Curve>, bytes) {
    var top := ReadSequence(der).result;
    if top.Err? then (None, der)
    else
      var version := ReadInteger(top.value);
      if version.result != Ok([0]) || version.rest == [] || version.rest[0] != 0x30 then (None, der)
      else
        var algo := ReadSequence(version.rest);
        if algo.result.Err? || ReadOid(algo.result.value).result != Ok(OID_EC) then (None, der)
        else
          var curve := ReadOid(ReadOid(algo.result.value).rest).result;
          var inner := ReadOctets(algo.rest).result;
          (if curve.Ok? then CurveOfOid(curve.value) else None, if inner.Ok? then inner.value else der)
  }

  /** The curve in SEC 1 parameters overrides the one found in the header. */
  function Sec1Curve(fromHeader: Option<Curve>, params: Result<Option<bytes>, DerError>): Option<Curve> {
    if params.Ok? && params.value.Some? then
      var oid := ReadOid(params.value.value).result;
      if oid.Ok? && CurveOfOid(oid.value).Some? then CurveOfOid(oid.value) else fromHeader
    else fromHeader
  }

  /** An uncompressed point is cut in the middle. */
  function Sec1Point(public: Result<Option<bytes>, DerError>): Option<(bytes, bytes)> {
    if public.Ok? && public.value.Some? then
      var bits := ReadBits(public.value.value).result;
      if bits.Ok? && bits.value != [] && bits.value[0] == 0x04 then
        var len := (|bits.value| - 1) / 2;
        Some((bits.value[1..1 + len], bits.value[1 + len..]))
      else None
    else None
  }

  function EcPrivateJwk(c: Curve, d: bytes, xy: Option<(bytes, bytes)>): Value {
    var base := map["kty" := Str(B("EC")), "crv" := Str(c.Name()), "d" := Str(B64(d))];
    Obj(if xy == None then base else base["x" := Str(B64(xy.value.0))]["y" := Str(B64(xy.value.1))])
  }

  function ParseEcPrivate(der: bytes): Result<Value, KeyError> {
    var (header, input) := EcHeader(der);
    var (top, _) :- Field(ReadSequence(input), "");
    var (_, i0) :- Field(ReadInteger(top), "");
    var (d, i1) :- Field(ReadOctets(i0), "");
    var params := ReadOptional(0xA0, i1);
    var c := Sec1Curve(header, params.result);
    if c == None then Err(UnknownCurve)
    else Ok(EcPrivateJwk(c.value, d, Sec1Point(ReadOptional(0xA1, params.rest).result)))
  }

  // ---------- trial-order dispatch ----------

  /** The trials of `pem_to_jwk`, given which kinds of label the text contains. */
  function Dispatch(isPublic: bool, isPrivate: bool, der: bytes, ed25519: Ed25519): Result<Value, KeyError> {
    if isPublic && ParseRsaPublic(der).Ok? then ParseRsaPublic(der)
    else if isPublic && ParseEcPublic(der).Ok? then ParseEcPublic(der)
    else if isPublic && ParseOkpPublic(der).Ok? then ParseOkpPublic(der)
    else if isPrivate && ParseRsaPrivate(der).Ok? then ParseRsaPrivate(der)
    else if isPrivate && ParseEcPrivate(der).Ok? then ParseEcPrivate(der)
    else if isPrivate && ParseOkpPrivate(der, ed25519).Ok? then ParseOkpPrivate(der, ed25519)
    else Err(UnknownFormat)
  }
}
