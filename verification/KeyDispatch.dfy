/** The parsers `pem_to_jwk` tries in order do not claim each other's keys, except for one family of OKP keys. */
module KeyDispatch {
  import opened Bytes
  import opened Der
  import opened Json
  import opened KeyFormats
  import opened KeyRoundTrip

  // ---------- well-formed keys of the other types ----------

  /** PrivateKeyInfo of an Edwards-curve key: the seed is an octet string inside the octet string. */
  function Pkcs8Okp(oid: bytes, seed: bytes): bytes {
    Tlv(0x30, IntTlv(0) + (Tlv(0x30, OidTlv(oid)) + Tlv(0x04, Tlv(0x04, seed))))
  }

  /** SubjectPublicKeyInfo of an elliptic-curve point. */
  function SpkiEc(c: Curve, point: bytes): bytes {
    Tlv(0x30, EcAlgorithm(c) + BitString(point))
  }

  /** SubjectPublicKeyInfo of an Edwards-curve key. */
  function SpkiOkp(oid: bytes, key: bytes): bytes {
    Tlv(0x30, Tlv(0x30, OidTlv(oid)) + BitString(key))
  }

  predicate IsOkpOid(oid: bytes) {
    oid == OID_ED25519 || oid == OID_ED448
  }

  // ---------- private keys ----------

  /** Any PrivateKeyInfo whose algorithm starts with another identifier is refused by the RSA parser. */
  lemma RsaPrivateRefuses(algo: bytes, oid: bytes, octets: bytes)
    requires |IntTlv(0) + (Tlv(0x30, algo) + octets)| < LIMIT
    requires ReadOid(algo).result == Ok(oid) && oid != OID_RSA
    ensures ParseRsaPrivate(Tlv(0x30, IntTlv(0) + (Tlv(0x30, algo) + octets))) == Err(WrongOid)
  {
    hide IntTlv, ReadInteger, ReadOid;
    TopReadsBack(0x30, IntTlv(0) + (Tlv(0x30, algo) + octets));
    ZeroTlv(Tlv(0x30, algo) + octets);
    TlvFirst(0x30, algo, octets);
    TaggedReadsBack(0x30, algo, octets);
  }

  lemma Pkcs8Sizes(algo: bytes, octets: bytes)
    ensures |Tlv(0x30, IntTlv(0) + (Tlv(0x30, algo) + octets))| > |IntTlv(0) + (Tlv(0x30, algo) + octets)|
  {
  }

  /** A PKCS#8 EC key reaches the EC parser. */
  lemma EcPrivateDispatch(c: Curve, d: bytes, xy: Option<(bytes, bytes)>, ed25519: Ed25519)
    requires |Pkcs8Ec(c, d, xy)| < LIMIT
    ensures ParseRsaPrivate(Pkcs8Ec(c, d, xy)).Err?
    ensures Dispatch(false, true, Pkcs8Ec(c, d, xy), ed25519)
         == Ok(EcPrivateJwk(c, d, if xy == None then None else Some(Cut(xy.value.0 + xy.value.1))))
  {
    hide IntTlv, ParseEcPrivate, ParseRsaPrivate, EcPrivateJwk;
    var octets := Tlv(0x04, Sec1(c, d, xy));
    EcAlgorithmReads(c);
    Pkcs8Sizes(OidTlv(OID_EC) + OidTlv(c.Oid()), octets);
    RsaPrivateRefuses(OidTlv(OID_EC) + OidTlv(c.Oid()), OID_EC, octets);
    EcPrivateParses(c, d, xy);
  }

  lemma OkpOidReads(oid: bytes)
    requires IsOkpOid(oid)
    ensures ReadOid(OidTlv(oid)) == Read(Ok(oid), []) && |OidTlv(oid)| == 5
    ensures oid != OID_RSA && oid != OID_EC && CurveOfOid(oid) == None && OkpName(oid).Some?
  {
    TopReadsBack(0x06, oid);
  }

  /** The EC parser looks for an octet string after the version and finds the algorithm instead. */
  lemma EcPrivateRefusesOkp(oid: bytes, seed: bytes)
    requires IsOkpOid(oid) && |Pkcs8Okp(oid, seed)| < LIMIT
    ensures ParseEcPrivate(Pkcs8Okp(oid, seed)).Err?
  {
    hide IntTlv, ReadInteger;
    var algo, octets := Tlv(0x30, OidTlv(oid)), Tlv(0x04, Tlv(0x04, seed));
    Pkcs8Sizes(OidTlv(oid), octets);
    TopReadsBack(0x30, IntTlv(0) + (algo + octets));
    ZeroTlv(algo + octets);
    OkpOidReads(oid);
    TlvFirst(0x30, OidTlv(oid), octets);
    TaggedReadsBack(0x30, OidTlv(oid), octets);
    WrongTagRefused(0x04, algo + octets);
  }

  function OkpPrivateJwk(oid: bytes, d: bytes, ed25519: Ed25519): Value
    requires IsOkpOid(oid)
  {
    var base := map["kty" := Str(B("OKP")), "crv" := Str(OkpName(oid).value), "d" := Str(B64(d))];
    Obj(if oid == OID_ED25519 && ed25519(d).Some? then base["x" := Str(B64(ed25519(d).value))] else base)
  }

  /** A PKCS#8 Edwards-curve key is refused by the RSA and EC parsers and reaches its own, seed intact. */
  lemma OkpPrivateDispatch(oid: bytes, seed: bytes, ed25519: Ed25519)
    requires IsOkpOid(oid) && |Pkcs8Okp(oid, seed)| < LIMIT
    ensures ParseRsaPrivate(Pkcs8Okp(oid, seed)).Err? && ParseEcPrivate(Pkcs8Okp(oid, seed)).Err?
    ensures Dispatch(false, true, Pkcs8Okp(oid, seed), ed25519) == Ok(OkpPrivateJwk(oid, seed, ed25519))
  {
    hide IntTlv, ReadInteger, ParseEcPrivate, ParseRsaPrivate;
    var octets := Tlv(0x04, Tlv(0x04, seed));
    OkpOidReads(oid);
    Pkcs8Sizes(OidTlv(oid), octets);
    RsaPrivateRefuses(OidTlv(oid), oid, octets);
    EcPrivateRefusesOkp(oid, seed);
    OkpPrivateParses(oid, seed, ed25519);
  }

  lemma OkpPrivateParses(oid: bytes, seed: bytes, ed25519: Ed25519)
    requires IsOkpOid(oid) && |Pkcs8Okp(oid, seed)| < LIMIT
    ensures ParseOkpPrivate(Pkcs8Okp(oid, seed), ed25519) == Ok(OkpPrivateJwk(oid, seed, ed25519))
  {
    hide IntTlv, ReadInteger, OkpName, B64;
    var algo, octets := Tlv(0x30, OidTlv(oid)), Tlv(0x04, Tlv(0x04, seed));
    OkpOidReads(oid);
    Pkcs8Sizes(OidTlv(oid), octets);
    TlvFirst(0x04, Tlv(0x04, seed), []);
    TlvFirst(0x04, seed, []);
    TopReadsBack(0x30, IntTlv(0) + (algo + octets));
    ZeroTlv(algo + octets);
    TaggedReadsBack(0x30, OidTlv(oid), octets);
    TopReadsBack(0x04, Tlv(0x04, seed));
    TopReadsBack(0x04, seed);
  }

  // ---------- public keys ----------

  lemma SpkiReads(algo: bytes, key: bytes)
    requires |Tlv(0x30, Tlv(0x30, algo) + BitString(key))| < LIMIT
    ensures var top := Tlv(0x30, algo) + BitString(key);
            ReadSequence(Tlv(0x30, top)) == Read(Ok(top), []) && top[0] == 0x30 &&
            ReadSequence(top) == Read(Ok(algo), BitString(key)) && ReadBits(BitString(key)).result == Ok(key)
  {
    var top := Tlv(0x30, algo) + BitString(key);
    TlvFirst(0x30, top, []);
    TlvFirst(0x30, algo, BitString(key));
    TlvFirst(0x03, [0] + key, []);
    TopReadsBack(0x30, top);
    TaggedReadsBack(0x30, algo, BitString(key));
    TopReadsBack(0x03, [0] + key);
    assert ([0] + key)[1..] == key;
  }

  /** The raw key bytes read as a DER SEQUENCE that starts with two INTEGERs. */
  predicate ReadsAsTwoIntegers(key: bytes) {
    ReadSequence(key).result.Ok? &&
    ReadInteger(ReadSequence(key).result.value).result.Ok? &&
    ReadInteger(ReadInteger(ReadSequence(key).result.value).rest).result.Ok?
  }

  /** The RSA parser ignores the algorithm: it accepts a SubjectPublicKeyInfo by its key bytes alone. */
  lemma RsaPublicAcceptsIff(algo: bytes, key: bytes)
    requires |Tlv(0x30, Tlv(0x30, algo) + BitString(key))| < LIMIT
    ensures ParseRsaPublic(Tlv(0x30, Tlv(0x30, algo) + BitString(key))).Ok? <==> ReadsAsTwoIntegers(key)
  {
    hide ReadInteger, ReadSequence, ReadBits;
    SpkiReads(algo, key);
  }

  /** An EC point starts with 4, so it is never taken for RSA; uncompressed points reach the EC parser. */
  lemma EcPublicDispatch(c: Curve, x: bytes, y: bytes, ed25519: Ed25519)
    requires |x| == c.Size() && |y| == c.Size()
    ensures var spki := SpkiEc(c, [0x04] + (x + y));
            ParseRsaPublic(spki).Err? &&
            Dispatch(true, false, spki, ed25519)
              == Ok(Obj(map["kty" := Str(B("EC")), "crv" := Str(c.Name()), "x" := Str(B64(x)), "y" := Str(B64(y))]))
  {
    hide ReadsAsTwoIntegers, ParseRsaPublic, ParseEcPublic;
    var point := [0x04] + (x + y);
    EcPublicSize(c, point);
    EcAlgorithmReads(c);
    RsaPublicAcceptsIff(OidTlv(OID_EC) + OidTlv(c.Oid()), point);
    PointIsNoSequence(point);
    EcPublicParses(c, x, y);
  }

  lemma EcPublicSize(c: Curve, point: bytes)
    requires |point| <= 133
    ensures |SpkiEc(c, point)| < LIMIT
  {
  }

  lemma PointIsNoSequence(point: bytes)
    requires point != [] && point[0] == 0x04
    ensures !ReadsAsTwoIntegers(point)
  {
  }

  lemma EcPublicParses(c: Curve, x: bytes, y: bytes)
    requires |x| == c.Size() && |y| == c.Size()
    ensures ParseEcPublic(SpkiEc(c, [0x04] + (x + y)))
         == Ok(Obj(map["kty" := Str(B("EC")), "crv" := Str(c.Name()), "x" := Str(B64(x)), "y" := Str(B64(y))]))
  {
    hide ReadSequence, ReadBits, ReadOid, Tlv, B, B64;
    var len, point := c.Size(), [0x04] + (x + y);
    EcPublicSize(c, point);
    SpkiReads(OidTlv(OID_EC) + OidTlv(c.Oid()), point);
    EcAlgorithmReads(c);
    CurveOidKnown(c);
    PointParts(x, y, len);
  }

  lemma PointParts(x: bytes, y: bytes, len: nat)
    requires |x| == len && |y| == len
    ensures var point := [0x04] + (x + y);
            |point| == 1 + 2 * len && point[0] == 0x04 && point[1..1 + len] == x && point[1 + len..1 + 2 * len] == y
  {
    var point := [0x04] + (x + y);
    assert point[1..] == x + y;
    assert point[1..1 + len] == (x + y)[..len];
    assert point[1 + len..1 + 2 * len] == (x + y)[len..2 * len];
  }

  /** An Edwards-curve public key reaches its own parser exactly when its bytes are not an RSA look-alike. */
  lemma OkpPublicDispatchIff(oid: bytes, key: bytes, ed25519: Ed25519)
    requires IsOkpOid(oid) && |SpkiOkp(oid, key)| < LIMIT
    ensures ParseEcPublic(SpkiOkp(oid, key)).Err?
    ensures Dispatch(true, false, SpkiOkp(oid, key), ed25519)
         == Ok(Obj(map["kty" := Str(B("OKP")), "crv" := Str(OkpName(oid).value), "x" := Str(B64(key))]))
       <==> !ReadsAsTwoIntegers(key)
  {
    hide ReadsAsTwoIntegers, ReadSequence, ReadBits, B64, ReadInteger;
    SpkiReads(OidTlv(oid), key);
    OkpOidReads(oid);
    RsaPublicAcceptsIff(OidTlv(oid), key);
    assert ReadOid([]).result == Err(Eof);
    assert ParseOkpPublic(SpkiOkp(oid, key))
        == Ok(Obj(map["kty" := Str(B("OKP")), "crv" := Str(OkpName(oid).value), "x" := Str(B64(key))]));
    if ParseRsaPublic(SpkiOkp(oid, key)).Ok? {
      RsaPublicKind(SpkiOkp(oid, key));
      assert B("RSA")[0] != B("OKP")[0];
    }
  }

  lemma RsaPublicKind(der: bytes)
    requires ParseRsaPublic(der).Ok?
    ensures ParseRsaPublic(der).value.GetStr("kty") == Some(B("RSA"))
  {
  }

  /** A 32-byte Ed25519 public key that is taken for an RSA key. */
  lemma OkpMisclassified(ed25519: Ed25519) returns (key: bytes)
    ensures |key| == 32 && ReadsAsTwoIntegers(key)
    ensures Dispatch(true, false, SpkiOkp(OID_ED25519, key), ed25519)
         != Ok(Obj(map["kty" := Str(B("OKP")), "crv" := Str(B("Ed25519")), "x" := Str(B64(key))]))
  {
    hide Dispatch, B, B64;
    var fields := IntTlv(3) + IntTlv(5);
    var tail: bytes := seq(24, _ => 0);
    key := Tlv(0x30, fields) + tail;
    assert IntContent(3) == [3] && IntContent(5) == [5];
    TaggedReadsBack(0x30, fields, tail);
    IntegerReadsBack(3, IntTlv(5));
    IntegerReadsBack(5, []);
    assert IntTlv(5) + [] == IntTlv(5);
    assert |key| == 32 && ReadsAsTwoIntegers(key);
    assert |SpkiOkp(OID_ED25519, key)| < LIMIT;
    OkpPublicDispatchIff(OID_ED25519, key, ed25519);
  }
}
