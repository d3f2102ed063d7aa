/** The key printer and the key parsers undo each other, and the parsers do not mistake each other's input. */
module KeyRoundTrip {
  import opened Bytes
  import opened Der
  import opened KeyFormats
  import Base64
  import Json
  import RsaCrt
  import RsaMath

  const LIMIT := 0x1_0000

  // ---------- reading printed elements ----------

  lemma TopReadsBack(tag: byte, content: bytes)
    requires |content| < LIMIT
    ensures ReadTagged(tag, Tlv(tag, content)) == Read(Ok(content), [])
  {
    TaggedReadsBack(tag, content, []);
    assert Tlv(tag, content) + [] == Tlv(tag, content);
  }

  lemma ZeroTlv(rest: bytes)
    ensures ReadInteger(IntTlv(0) + rest) == Read(Ok([0]), rest)
    ensures ReadInteger(IntTlv(1) + rest) == Read(Ok([1]), rest)
  {
    IntegerReadsBack(0, rest);
    IntegerReadsBack(1, rest);
  }

  lemma TlvFirst(tag: byte, content: bytes, rest: bytes)
    ensures Tlv(tag, content) + rest != [] && (Tlv(tag, content) + rest)[0] == tag
    ensures |Tlv(tag, content)| > |content|
  {
  }

  /** A DER element of the wrong tag is refused. */
  lemma WrongTagRefused(tag: byte, input: bytes)
    requires input != [] && input[0] != tag
    ensures ReadTagged(tag, input).result.Err?
  {
  }

  // ---------- RSA ----------

  lemma FieldsReadBack(k: RsaCrt.Components)
    requires |RsaFields(k)| < LIMIT
    ensures ParseRsaFields(RsaFields(k))
         == Ok(RsaPrivateJwk(ToBE(k.n), ToBE(k.e), ToBE(k.d), ToBE(k.p), ToBE(k.q), ToBE(k.dp), ToBE(k.dq), ToBE(k.qi)))
  {
    hide IntTlv, ReadInteger, RsaPrivateJwk;
    var r7 := IntTlv(k.qi);
    var r6 := IntTlv(k.dq) + r7;
    var r5 := IntTlv(k.dp) + r6;
    var r4 := IntTlv(k.q) + r5;
    var r3 := IntTlv(k.p) + r4;
    var r2 := IntTlv(k.d) + r3;
    var r1 := IntTlv(k.e) + r2;
    assert r7 == r7 + [];
    IntReads(k.n, r1);
    IntReads(k.e, r2);
    IntReads(k.d, r3);
    IntReads(k.p, r4);
    IntReads(k.q, r5);
    IntReads(k.dp, r6);
    IntReads(k.dq, r7);
    IntReads(k.qi, []);
  }

  lemma IntReads(n: nat, rest: bytes)
    requires |IntTlv(n)| < LIMIT
    ensures ReadInteger(IntTlv(n) + rest) == Read(Ok(ToBE(n)), rest)
  {
    TlvFirst(0x02, IntContent(n), rest);
    IntegerReadsBack(n, rest);
  }

  /** All eight integers of an RSA private key survive printing and parsing. */
  lemma RsaPrivateRoundTrip(k: RsaCrt.Components)
    requires |IntTlv(0) + RsaFields(k)| < LIMIT
    ensures ParseRsaPrivate(RsaPrivateDer(k))
         == Ok(RsaPrivateJwk(ToBE(k.n), ToBE(k.e), ToBE(k.d), ToBE(k.p), ToBE(k.q), ToBE(k.dp), ToBE(k.dq), ToBE(k.qi)))
  {
    hide IntTlv, RsaPrivateJwk, ParseRsaFields, ReadInteger;
    TopReadsBack(0x30, IntTlv(0) + RsaFields(k));
    ZeroTlv(RsaFields(k));
    FirstIsInteger(k);
    FieldsReadBack(k);
  }

  lemma FirstIsInteger(k: RsaCrt.Components)
    ensures RsaFields(k) != [] && RsaFields(k)[0] == 0x02
  {
  }

  lemma MemberReadsBack(jwk: Json.Value, field: string, n: nat)
    requires jwk.GetStr(field) == Some(B64(ToBE(n)))
    ensures GetBigUint(jwk, field) == Ok(n)
  {
    Base64.RoundTrip(Base64.URL_SAFE_NO_PAD, ToBE(n));
    FromToBE(n);
  }

  lemma KeyTypesDistinct()
    ensures B("RSA") != B("oct") && B("RSA") != B("OKP") && B("EC") != B("oct") && B("EC") != B("OKP") &&
            B("EC") != B("RSA")
  {
    assert B("RSA")[0] == 82 && B("oct")[0] == 111 && B("OKP")[0] == 79 && B("EC")[0] == 69;
  }

  lemma RsaBranch(jwk: Json.Value, rng: seq<seq<RsaMath.Fill>>)
    requires Recoverable(jwk) && jwk.GetStr("kty") == Some(B("RSA")) && jwk.Get("d").Some?
    requires KeyBytes(jwk, false, rng).Ok?
    ensures RsaComponents(jwk, rng).Ok? && KeyBytes(jwk, false, rng) == Ok(RsaPrivateDer(RsaComponents(jwk, rng).value))
  {
    hide B, RsaPrivateDer, RsaComponents, GetBigUint;
    KeyTypesDistinct();
  }

  /** A private JWK, whether complete or rebuilt from (n, e, d), denotes the same key after printing and parsing. */
  lemma RsaKeySurvives(jwk: Json.Value, rng: seq<seq<RsaMath.Fill>>)
    requires Recoverable(jwk) && jwk.GetStr("kty") == Some(B("RSA")) && jwk.Get("d").Some?
    requires KeyBytes(jwk, false, rng).Ok? && |KeyBytes(jwk, false, rng).value| < LIMIT
    ensures var parsed := ParseRsaPrivate(KeyBytes(jwk, false, rng).value);
            parsed.Ok? && Recoverable(parsed.value) && RsaComponents(parsed.value, rng) == RsaComponents(jwk, rng)
  {
    hide B, KeyBytes, RsaComponents, Recoverable, ParseRsaPrivate, RsaFields, RsaPrivateJwk, IntTlv;
    RsaBranch(jwk, rng);
    var k := RsaComponents(jwk, rng).value;
    TlvFirst(0x30, IntTlv(0) + RsaFields(k), []);
    RsaPrivateRoundTrip(k);
    ComponentsReadBack(k, rng);
  }

  lemma ComponentsReadBack(k: RsaCrt.Components, rng: seq<seq<RsaMath.Fill>>)
    ensures var jwk := RsaPrivateJwk(ToBE(k.n), ToBE(k.e), ToBE(k.d), ToBE(k.p), ToBE(k.q), ToBE(k.dp), ToBE(k.dq),
                                     ToBE(k.qi));
            Recoverable(jwk) && RsaComponents(jwk, rng) == Ok(k)
  {
    hide GetBigUint, B64;
    var jwk := RsaPrivateJwk(ToBE(k.n), ToBE(k.e), ToBE(k.d), ToBE(k.p), ToBE(k.q), ToBE(k.dp), ToBE(k.dq), ToBE(k.qi));
    MemberReadsBack(jwk, "n", k.n);
    MemberReadsBack(jwk, "e", k.e);
    MemberReadsBack(jwk, "d", k.d);
    MemberReadsBack(jwk, "p", k.p);
    MemberReadsBack(jwk, "q", k.q);
    MemberReadsBack(jwk, "dp", k.dp);
    MemberReadsBack(jwk, "dq", k.dq);
    MemberReadsBack(jwk, "qi", k.qi);
  }

  /** The public modulus and exponent survive the SubjectPublicKeyInfo form. */
  lemma RsaPublicRoundTrip(n: nat, e: nat)
    requires |RsaSpki(n, e)| < LIMIT
    ensures ParseRsaPublic(RsaSpki(n, e)) == Ok(RsaPublicJwk(ToBE(n), ToBE(e)))
  {
    var fields := IntTlv(n) + IntTlv(e);
    var algo, bits := Tlv(0x30, RSA_ALGORITHM), BitString(RsaPublicDer(n, e));
    TlvFirst(0x30, algo + bits, []);
    TlvFirst(0x03, [0] + RsaPublicDer(n, e), []);
    TlvFirst(0x30, fields, []);
    TopReadsBack(0x30, algo + bits);
    TlvFirst(0x30, RSA_ALGORITHM, bits);
    TaggedReadsBack(0x30, RSA_ALGORITHM, bits);
    TopReadsBack(0x03, [0] + RsaPublicDer(n, e));
    assert ([0] + RsaPublicDer(n, e))[1..] == RsaPublicDer(n, e);
    TopReadsBack(0x30, fields);
    IntReads(n, IntTlv(e));
    IntReads(e, []);
    assert IntTlv(e) + [] == IntTlv(e);
  }

  /** A JWK printed as a public RSA key comes back with its own modulus and exponent. */
  lemma RsaPublicKeySurvives(jwk: Json.Value, publicOnly: bool, rng: seq<seq<RsaMath.Fill>>)
    requires jwk.GetStr("kty") == Some(B("RSA")) && (publicOnly || jwk.Get("d") == None)
    requires KeyBytes(jwk, publicOnly, rng).Ok? && |KeyBytes(jwk, publicOnly, rng).value| < LIMIT
    ensures var parsed := ParseRsaPublic(KeyBytes(jwk, publicOnly, rng).value);
            parsed.Ok? && GetBigUint(jwk, "n").Ok? && GetBigUint(jwk, "e").Ok? &&
            GetBigUint(parsed.value, "n") == GetBigUint(jwk, "n") &&
            GetBigUint(parsed.value, "e") == GetBigUint(jwk, "e")
  {
    hide B, GetBigUint, RsaSpki, ParseRsaPublic, B64;
    KeyTypesDistinct();
    var n, e := GetBigUint(jwk, "n").value, GetBigUint(jwk, "e").value;
    RsaPublicRoundTrip(n, e);
    PublicReadsBack(n, e);
  }

  lemma PublicReadsBack(n: nat, e: nat)
    ensures var jwk := RsaPublicJwk(ToBE(n), ToBE(e)); GetBigUint(jwk, "n") == Ok(n) && GetBigUint(jwk, "e") == Ok(e)
  {
    hide GetBigUint, B64;
    MemberReadsBack(RsaPublicJwk(ToBE(n), ToBE(e)), "n", n);
    MemberReadsBack(RsaPublicJwk(ToBE(n), ToBE(e)), "e", e);
  }

  lemma RsaAlgorithmReads()
    ensures |RSA_ALGORITHM| < LIMIT
    ensures ReadOid(RSA_ALGORITHM).result == Ok(OID_RSA)
  {
    TaggedReadsBack(0x06, OID_RSA, [0x05, 0x00]);
  }

  /** Wrapping as PKCS#8 is transparent to the parser on every input, malformed ones included. */
  lemma WrapTransparent(x: bytes)
    requires |Pkcs8Rsa(x)| < LIMIT
    ensures ParseRsaPrivate(Pkcs8Rsa(x)) == ParseRsaPrivate(x)
  {
    hide IntTlv, ReadInteger;
    var algo, octets := Tlv(0x30, RSA_ALGORITHM), Tlv(0x04, x);
    TlvFirst(0x30, IntTlv(0) + (algo + octets), []);
    TlvFirst(0x04, x, []);
    TopReadsBack(0x30, IntTlv(0) + (algo + octets));
    ZeroTlv(algo + octets);
    TlvFirst(0x30, RSA_ALGORITHM, octets);
    RsaAlgorithmReads();
    TaggedReadsBack(0x30, RSA_ALGORITHM, octets);
    TopReadsBack(0x04, x);
  }

  // ---------- EC ----------

  lemma OptionalReads(mark: byte, content: bytes, rest: bytes)
    requires |content| < LIMIT
    ensures ReadOptional(mark, Tlv(mark, content) + rest) == Read(Ok(Some(content)), rest)
  {
    ReadsBack(mark, content, rest);
    TlvFirst(mark, content, rest);
  }

  lemma CurveOidKnown(c: Curve)
    ensures CurveOfOid(c.Oid()) == Some(c) && |c.Oid()| <= 8
  {
  }

  lemma EcAlgorithmReads(c: Curve)
    ensures var algo := OidTlv(OID_EC) + OidTlv(c.Oid());
            |algo| < LIMIT && ReadOid(algo) == Read(Ok(OID_EC), OidTlv(c.Oid())) &&
            ReadOid(OidTlv(c.Oid())).result == Ok(c.Oid())
  {
    CurveOidKnown(c);
    TaggedReadsBack(0x06, OID_EC, OidTlv(c.Oid()));
    TopReadsBack(0x06, c.Oid());
  }

  lemma EcHeaderReads(c: Curve, d: bytes, xy: Option<(bytes, bytes)>)
    requires |Pkcs8Ec(c, d, xy)| < LIMIT
    ensures EcHeader(Pkcs8Ec(c, d, xy)) == (Some(c), Sec1(c, d, xy))
  {
    hide IntTlv, ReadInteger, Sec1;
    var algo, octets := EcAlgorithm(c), Tlv(0x04, Sec1(c, d, xy));
    var oids := OidTlv(OID_EC) + OidTlv(c.Oid());
    TlvFirst(0x30, IntTlv(0) + (algo + octets), []);
    TlvFirst(0x04, Sec1(c, d, xy), []);
    TopReadsBack(0x30, IntTlv(0) + (algo + octets));
    ZeroTlv(algo + octets);
    TlvFirst(0x30, oids, octets);
    EcAlgorithmReads(c);
    CurveOidKnown(c);
    TaggedReadsBack(0x30, oids, octets);
    TopReadsBack(0x04, Sec1(c, d, xy));
  }

  /** The middle cut of a point, which is the printed pair only when the coordinates are balanced. */
  function Cut(point: bytes): (bytes, bytes) {
    (point[..|point| / 2], point[|point| / 2..])
  }

  lemma PointReads(point: bytes)
    requires |BitString([0x04] + point)| < LIMIT
    ensures Sec1Point(Ok(Some(BitString([0x04] + point)))) == Some(Cut(point))
  {
    hide ReadTagged, Tlv;
    var bits := [0x04] + point;
    TlvFirst(0x03, [0] + bits, []);
    TopReadsBack(0x03, [0] + bits);
    assert ([0] + bits)[1..] == bits;
    var len := |point| / 2;
    assert bits[1..1 + len] == point[..len] && bits[1 + len..] == point[len..];
  }

  lemma PublicPartReads(xy: Option<(bytes, bytes)>)
    requires |PublicPart(xy)| < LIMIT
    ensures Sec1Point(ReadOptional(0xA1, PublicPart(xy)).result)
         == if xy == None then None else Some(Cut(xy.value.0 + xy.value.1))
  {
    if xy.Some? {
      hide Sec1Point, BitString, Cut;
      var point := xy.value.0 + xy.value.1;
      TlvFirst(0xA1, BitString([0x04] + point), []);
      PointReads(point);
      OptionalReads(0xA1, BitString([0x04] + point), []);
      assert PublicPart(xy) + [] == PublicPart(xy);
    }
  }

  /** What a printed EC private key parses to. */
  lemma EcPrivateParses(c: Curve, d: bytes, xy: Option<(bytes, bytes)>)
    requires |Pkcs8Ec(c, d, xy)| < LIMIT
    ensures ParseEcPrivate(Pkcs8Ec(c, d, xy))
         == Ok(EcPrivateJwk(c, d, if xy == None then None else Some(Cut(xy.value.0 + xy.value.1))))
  {
    hide IntTlv, ReadInteger, EcPrivateJwk, PublicPart, Sec1Point, EcHeader;
    EcHeaderReads(c, d, xy);
    var params, public := Tlv(0xA0, OidTlv(c.Oid())), PublicPart(xy);
    var body := IntTlv(1) + (Tlv(0x04, d) + (params + public));
    SizesOfEc(c, d, xy);
    TopReadsBack(0x30, body);
    ZeroTlv(Tlv(0x04, d) + (params + public));
    TaggedReadsBack(0x04, d, params + public);
    EcAlgorithmReads(c);
    OptionalReads(0xA0, OidTlv(c.Oid()), public);
    CurveOidKnown(c);
    PublicPartReads(xy);
  }

  lemma SizesOfEc(c: Curve, d: bytes, xy: Option<(bytes, bytes)>)
    requires |Pkcs8Ec(c, d, xy)| < LIMIT
    ensures |IntTlv(1) + (Tlv(0x04, d) + (Tlv(0xA0, OidTlv(c.Oid())) + PublicPart(xy)))| < LIMIT
    ensures |d| < LIMIT && |PublicPart(xy)| < LIMIT
  {
  }

  /**
   Curve, private scalar and coordinates survive exactly when y is as long as x or one byte longer;
   `validate_ec_coordinates` makes them equally long.
   */
  lemma EcPrivateRoundTripIff(c: Curve, d: bytes, x: bytes, y: bytes)
    requires |Pkcs8Ec(c, d, Some((x, y)))| < LIMIT
    ensures ParseEcPrivate(Pkcs8Ec(c, d, Some((x, y)))) == Ok(EcPrivateJwk(c, d, Some((x, y))))
       <==> |x| <= |y| <= |x| + 1
  {
    hide Pkcs8Ec, ParseEcPrivate, EcPrivateJwk;
    EcPrivateParses(c, d, Some((x, y)));
    var cut := Cut(x + y);
    if |x| <= |y| <= |x| + 1 {
      assert cut.0 == x && cut.1 == y;
    } else {
      assert |cut.0| != |x|;
      EcJwkInjective(c, d, cut, (x, y));
    }
  }

  lemma EcJwkInjective(c: Curve, d: bytes, a: (bytes, bytes), b: (bytes, bytes))
    requires a.0 != b.0
    ensures EcPrivateJwk(c, d, Some(a)) != EcPrivateJwk(c, d, Some(b))
  {
    hide B64;
    B64Injective(a.0, b.0);
    assert EcPrivateJwk(c, d, Some(a)).GetStr("x") == Some(B64(a.0));
    assert EcPrivateJwk(c, d, Some(b)).GetStr("x") == Some(B64(b.0));
  }

  lemma B64Injective(a: bytes, b: bytes)
    ensures B64(a) == B64(b) <==> a == b
  {
    Base64.RoundTrip(Base64.URL_SAFE_NO_PAD, a);
    Base64.RoundTrip(Base64.URL_SAFE_NO_PAD, b);
  }

  /** A string member holding canonical base64url is the encoding of its value. */
  lemma MemberCanonical(jwk: Json.Value, field: string)
    requires Member(jwk, field).Ok?
    ensures jwk.GetStr(field) == Some(B64(Member(jwk, field).value))
  {
    Base64.DecodeIff(Base64.URL_SAFE_NO_PAD, jwk.GetStr(field).value, Member(jwk, field).value);
  }

  /** What is printed for a validated EC private JWK: its own curve, scalar and coordinates, the latter equally long. */
  lemma EcJwkPrinted(jwk: Json.Value, rng: seq<seq<RsaMath.Fill>>) returns (c: Curve, d: bytes, x: bytes, y: bytes)
    requires jwk.GetStr("kty") == Some(B("EC")) && ValidEcCoordinates(jwk)
    requires jwk.GetStr("crv").Some? && CurveOfName(jwk.GetStr("crv").value).Some?
    requires jwk.GetStr("d").Some? && jwk.GetStr("x").Some? && jwk.GetStr("y").Some?
    ensures KeyBytes(jwk, false, rng) == Ok(Pkcs8Ec(c, d, Some((x, y))))
    ensures |Pkcs8Ec(c, d, Some((x, y)))| < LIMIT && |x| == |y|
    ensures jwk.GetStr("crv") == Some(c.Name()) && jwk.GetStr("d") == Some(B64(d))
    ensures jwk.GetStr("x") == Some(B64(x)) && jwk.GetStr("y") == Some(B64(y))
  {
    hide Pkcs8Ec, B64, Member;
    c := CurveOfName(jwk.GetStr("crv").value).value;
    d, x, y := Member(jwk, "d").value, Member(jwk, "x").value, Member(jwk, "y").value;
    KeyTypesDistinct();
    MemberCanonical(jwk, "d");
    MemberCanonical(jwk, "x");
    MemberCanonical(jwk, "y");
    EcSizes(c, d, x, y);
  }

  /** An EC private JWK that passes `validate_ec_coordinates` comes back with all of its members. */
  lemma EcKeySurvives(jwk: Json.Value, rng: seq<seq<RsaMath.Fill>>)
    requires jwk.GetStr("kty") == Some(B("EC")) && ValidEcCoordinates(jwk)
    requires jwk.GetStr("crv").Some? && CurveOfName(jwk.GetStr("crv").value).Some?
    requires jwk.GetStr("d").Some? && jwk.GetStr("x").Some? && jwk.GetStr("y").Some?
    ensures KeyBytes(jwk, false, rng).Ok?
    ensures var parsed := ParseEcPrivate(KeyBytes(jwk, false, rng).value);
            parsed.Ok? && parsed.value.GetStr("kty") == jwk.GetStr("kty") &&
            forall f :: f in {"crv", "d", "x", "y"} ==> parsed.value.GetStr(f) == jwk.GetStr(f)
  {
    hide Pkcs8Ec, ParseEcPrivate, B64, KeyBytes, ValidEcCoordinates, CurveOfName, B, Curve.Name;
    var c, d, x, y := EcJwkPrinted(jwk, rng);
    EcPrivateRoundTripIff(c, d, x, y);
  }

  lemma EcSizes(c: Curve, d: bytes, x: bytes, y: bytes)
    requires |d| <= 66 && |x| <= 66 && |y| <= 66
    ensures |Pkcs8Ec(c, d, Some((x, y)))| < LIMIT
  {
    CurveOidKnown(c);
  }
}
