/**
 What the parsers of src/key_utils.rs accept and return, as relations over DER elements of whatever length form, with
 literal tags, object identifiers by their arcs and JWK members by their names.
 */
module ParserRelation {
  import opened Base64Bits
  import opened Bytes
  import opened Der
  import opened Json
  import opened KeyFormats
  import opened KeyRelation
  import Base64

  // ---------- reading ----------

  /** An INTEGER, as the shortest digits of its octets; an empty one has none. */
  ghost predicate IntAt(s: bytes, input: bytes, rest: bytes) {
    exists c :: Element(0x02, c, input, rest) && s == if c == [] then [] else ToBE(FromBE(c))
  }

  /** A BIT STRING of at least its first content octet, which is not looked at. */
  ghost predicate BitsAt(bits: bytes, input: bytes, rest: bytes) {
    exists unused :: Element(0x03, [unused] + bits, input, rest)
  }

  lemma SequencesAre()
    ensures forall c, i, r :: ReadSequence(i) == Read(Ok(c), r) <==> Element(0x30, c, i, r)
    ensures forall c, i, r :: ReadOctets(i) == Read(Ok(c), r) <==> Element(0x04, c, i, r)
    ensures forall c, i, r :: ReadOid(i) == Read(Ok(c), r) <==> Element(0x06, c, i, r)
  {
    hide Element, ReadTagged;
    forall c, i, r
      ensures ReadSequence(i) == Read(Ok(c), r) <==> Element(0x30, c, i, r)
      ensures ReadOctets(i) == Read(Ok(c), r) <==> Element(0x04, c, i, r)
      ensures ReadOid(i) == Read(Ok(c), r) <==> Element(0x06, c, i, r)
    {
      ReadTaggedIff(0x30, c, i, r);
      ReadTaggedIff(0x04, c, i, r);
      ReadTaggedIff(0x06, c, i, r);
    }
  }

  lemma IntegersAre()
    ensures forall s, i, r :: ReadInteger(i) == Read(Ok(s), r) <==> IntAt(s, i, r)
  {
    hide Element, ReadTagged, Strip, IntAt;
    forall s, i, r
      ensures ReadInteger(i) == Read(Ok(s), r) <==> IntAt(s, i, r)
    {
      IntegerIs(s, i, r);
    }
  }

  lemma IntegerIs(s: bytes, i: bytes, r: bytes)
    ensures ReadInteger(i) == Read(Ok(s), r) <==> IntAt(s, i, r)
  {
    hide Element, ReadTagged, Strip;
    var t := ReadTagged(0x02, i);
    if t.result.Ok? {
      ReadTaggedIff(0x02, t.result.value, i, t.rest);
      StripIs(t.result.value);
    }
    if c :| Element(0x02, c, i, r) && s == if c == [] then [] else ToBE(FromBE(c)) {
      ReadTaggedIff(0x02, c, i, r);
      StripIs(c);
    }
  }

  lemma StripIs(c: bytes)
    ensures Strip(c) == if c == [] then [] else ToBE(FromBE(c))
  {
    if c != [] {
      StripIsShortest(c);
    }
  }

  lemma BitStringsAre()
    ensures forall b, i, r :: ReadBits(i) == Read(Ok(b), r) <==> BitsAt(b, i, r)
  {
    hide Element, ReadTagged, BitsAt;
    forall b, i, r
      ensures ReadBits(i) == Read(Ok(b), r) <==> BitsAt(b, i, r)
    {
      BitStringIs(b, i, r);
    }
  }

  lemma BitStringIs(b: bytes, i: bytes, r: bytes)
    ensures ReadBits(i) == Read(Ok(b), r) <==> BitsAt(b, i, r)
  {
    hide Element, ReadTagged;
    var t := ReadTagged(0x03, i);
    if t.result.Ok? && t.result.value != [] {
      ReadTaggedIff(0x03, t.result.value, i, t.rest);
      assert t.result.value == [t.result.value[0]] + t.result.value[1..];
    }
    if unused :| Element(0x03, [unused] + b, i, r) {
      ReadTaggedIff(0x03, [unused] + b, i, r);
    }
  }

  // ---------- public keys ----------

  /** SubjectPublicKeyInfo: its algorithm and its key bits, with anything behind them. */
  ghost predicate Spki(der: bytes, algo: bytes, bits: bytes) {
    exists top, r0, i1, r1 :: Element(0x30, top, der, r0) && Element(0x30, algo, top, i1) && BitsAt(bits, i1, r1)
  }

  /** The contents of an RSAPublicKey, bare or inside a SubjectPublicKeyInfo of any algorithm. */
  ghost predicate RsaContents(der: bytes, fields: bytes) {
    exists top, r ::
      Element(0x30, top, der, r) &&
      if top != [] && top[0] == 0x30 then
        exists algo, i1, bits, r1, r2 ::
          Element(0x30, algo, top, i1) && BitsAt(bits, i1, r1) && Element(0x30, fields, bits, r2)
      else fields == top
  }

  ghost predicate RsaPublicIs(der: bytes, jwk: Value) {
    exists fields, n, e, i1, r ::
      RsaContents(der, fields) && IntAt(n, fields, i1) && IntAt(e, i1, r) &&
      jwk == Obj(map["kty" := Str(B("RSA")), "n" := Str(Text64(n)), "e" := Str(Text64(e))])
  }

  lemma RsaContentsIs(der: bytes, fields: bytes)
    ensures RsaContents(der, fields) <==>
            ReadSequence(der).result.Ok? && RsaPublicFields(ReadSequence(der).result.value) == Ok(fields)
  {
    hide Element, BitsAt, ReadSequence, ReadBits;
    SequencesAre();
    BitStringsAre();
    var top := ReadSequence(der);
    if top.result.Ok? {
      assert Element(0x30, top.result.value, der, top.rest);
    }
  }

  /** `parse_rsa_public` accepts exactly these, whatever the algorithm says. */
  lemma RsaPublicIff(der: bytes, jwk: Value)
    ensures ParseRsaPublic(der) == Ok(jwk) <==> RsaPublicIs(der, jwk)
  {
    hide RsaContents, IntAt, ReadSequence, ReadInteger, RsaPublicFields, B, Base64.Encode;
    IntegersAre();
    forall fields
      ensures RsaContents(der, fields) <==>
              ReadSequence(der).result.Ok? && RsaPublicFields(ReadSequence(der).result.value) == Ok(fields)
    {
      RsaContentsIs(der, fields);
    }
  }

  lemma SpkiIs(der: bytes, algo: bytes, bits: bytes)
    ensures Spki(der, algo, bits) <==>
            ReadSequence(der).result.Ok? &&
            var a := ReadSequence(ReadSequence(der).result.value);
            a.result == Ok(algo) && ReadBits(a.rest).result == Ok(bits)
  {
    hide Element, BitsAt, ReadSequence, ReadBits;
    SequencesAre();
    BitStringsAre();
    var top := ReadSequence(der);
    if top.result.Ok? {
      assert Element(0x30, top.result.value, der, top.rest);
      var a := ReadSequence(top.result.value);
      if a.result.Ok? && ReadBits(a.rest).result.Ok? {
        assert Element(0x30, a.result.value, top.result.value, a.rest);
        assert BitsAt(ReadBits(a.rest).result.value, a.rest, ReadBits(a.rest).rest);
      }
    }
  }

  /** An algorithm of two identifiers of which the second names a curve; the point is cut after the curve's size. */
  ghost predicate EcPublicIs(der: bytes, jwk: Value) {
    exists algo, bits, first, i1, name, r ::
      Spki(der, algo, bits) && Element(0x06, first, algo, i1) && CurveRow(name).Some? &&
      Element(0x06, Oid(CurveRow(name).value.0), i1, r) &&
      var len := (CurveRow(name).value.1 + 7) / 8;
      |bits| >= 1 + 2 * len && bits[0] == 4 &&
      jwk == Obj(map["kty" := Str(B("EC")), "crv" := Str(name), "x" := Str(Text64(bits[1..1 + len])),
                     "y" := Str(Text64(bits[1 + len..1 + 2 * len]))])
  }

  lemma CurveOfOidIff(oid: bytes, c: Curve)
    ensures CurveOfOid(oid) == Some(c) <==> CurveRow(c.Name()).Some? && oid == Oid(CurveRow(c.Name()).value.0)
    ensures CurveRow(c.Name()).Some? && c.Size() == (CurveRow(c.Name()).value.1 + 7) / 8
  {
    hide B, Oid, CurveRow, Curve.Name;
    CurveTable(c);
  }

  /** `parse_ec_public` accepts exactly these. */
  lemma EcPublicIff(der: bytes, jwk: Value)
    ensures ParseEcPublic(der) == Ok(jwk) <==> EcPublicIs(der, jwk)
  {
    hide Spki, Element, ReadSequence, ReadBits, ReadOid, CurveOfOid, CurveRow, Oid, B, Base64.Encode, Curve.Name,
         Curve.Size;
    SequencesAre();
    forall algo, bits
      ensures Spki(der, algo, bits) <==>
              ReadSequence(der).result.Ok? &&
              var a := ReadSequence(ReadSequence(der).result.value);
              a.result == Ok(algo) && ReadBits(a.rest).result == Ok(bits)
    {
      SpkiIs(der, algo, bits);
    }
    if ParseEcPublic(der) == Ok(jwk) {
      EcPublicRead(der, jwk);
    }
    if EcPublicIs(der, jwk) {
      EcPublicAccepted(der, jwk);
    }
  }

  lemma EcPublicRead(der: bytes, jwk: Value)
    requires ParseEcPublic(der) == Ok(jwk)
    ensures EcPublicIs(der, jwk)
  {
    hide Spki, Element, ReadSequence, ReadBits, ReadOid, CurveOfOid, CurveRow, Oid, B, Base64.Encode, Curve.Name,
         Curve.Size;
    SequencesAre();
    var a := ReadSequence(ReadSequence(der).result.value);
    var algo, bits := a.result.value, ReadBits(a.rest).result.value;
    SpkiIs(der, algo, bits);
    var first := ReadOid(algo);
    assert Element(0x06, first.result.value, algo, first.rest);
    var second := ReadOid(first.rest);
    assert Element(0x06, second.result.value, first.rest, second.rest);
    CurveOfOidIff(second.result.value, CurveOfOid(second.result.value).value);
  }

  lemma EcPublicAccepted(der: bytes, jwk: Value)
    requires EcPublicIs(der, jwk)
    ensures ParseEcPublic(der) == Ok(jwk)
  {
    hide Spki, Element, ReadSequence, ReadBits, ReadOid, CurveOfOid, CurveRow, Oid, B, Base64.Encode, Curve.Name,
         Curve.Size;
    SequencesAre();
    var algo, bits, first, i1, name, r :|
      Spki(der, algo, bits) && Element(0x06, first, algo, i1) && CurveRow(name).Some? &&
      Element(0x06, Oid(CurveRow(name).value.0), i1, r) &&
      var len := (CurveRow(name).value.1 + 7) / 8;
      |bits| >= 1 + 2 * len && bits[0] == 4 &&
      jwk == Obj(map["kty" := Str(B("EC")), "crv" := Str(name), "x" := Str(Text64(bits[1..1 + len])),
                     "y" := Str(Text64(bits[1 + len..1 + 2 * len]))]);
    SpkiIs(der, algo, bits);
    var c := CurveNamed(name);
    CurveOfOidIff(Oid(CurveRow(name).value.0), c);
  }

  ghost predicate OkpPublicIs(der: bytes, jwk: Value) {
    exists algo, bits, name, r ::
      Spki(der, algo, bits) && EdwardsArcs(name).Some? && Element(0x06, Oid(EdwardsArcs(name).value), algo, r) &&
      jwk == Obj(map["kty" := Str(B("OKP")), "crv" := Str(name), "x" := Str(Text64(bits))])
  }

  lemma OkpNameIff(oid: bytes, name: bytes)
    ensures OkpName(oid) == Some(name) <==> EdwardsArcs(name).Some? && oid == Oid(EdwardsArcs(name).value)
    ensures OkpName(oid) == Some(name) ==> (oid == OID_ED25519 <==> name == B("Ed25519"))
  {
    hide B, Oid;
    KeyRelation.NamesDiffer();
    ArcsEdwards(112);
    ArcsEdwards(113);
  }

  /** `parse_okp_public` accepts exactly these. */
  lemma OkpPublicIff(der: bytes, jwk: Value)
    ensures ParseOkpPublic(der) == Ok(jwk) <==> OkpPublicIs(der, jwk)
  {
    hide Spki, Element, ReadSequence, ReadBits, ReadOid, OkpName, EdwardsArcs, Oid, B, Base64.Encode;
    SequencesAre();
    if ParseOkpPublic(der) == Ok(jwk) {
      var a := ReadSequence(ReadSequence(der).result.value);
      SpkiIs(der, a.result.value, ReadBits(a.rest).result.value);
      var oid := ReadOid(a.result.value);
      assert Element(0x06, oid.result.value, a.result.value, oid.rest);
      OkpNameIff(oid.result.value, OkpName(oid.result.value).value);
    }
    if algo, bits, name, r :|
        Spki(der, algo, bits) && EdwardsArcs(name).Some? && Element(0x06, Oid(EdwardsArcs(name).value), algo, r) &&
        jwk == Obj(map["kty" := Str(B("OKP")), "crv" := Str(name), "x" := Str(Text64(bits))]) {
      SpkiIs(der, algo, bits);
      OkpNameIff(Oid(EdwardsArcs(name).value), name);
    }
  }

  // ---------- private keys ----------

  /** Version, algorithm and octets of a PrivateKeyInfo. */
  ghost predicate Pkcs8(der: bytes, version: bytes, algo: bytes, octets: bytes) {
    exists top, r0, i0, i1, r1 ::
      Element(0x30, top, der, r0) && IntAt(version, top, i0) && Element(0x30, algo, i0, i1) &&
      Element(0x04, octets, i1, r1)
  }

  function OkpJwk(name: bytes, d: bytes, ed25519: Ed25519): Value {
    if name == B("Ed25519") && ed25519(d).Some?
    then Obj(map["kty" := Str(B("OKP")), "crv" := Str(name), "d" := Str(Text64(d)),
                 "x" := Str(Text64(ed25519(d).value))])
    else Obj(map["kty" := Str(B("OKP")), "crv" := Str(name), "d" := Str(Text64(d))])
  }

  /** An Edwards-curve key: the seed is an octet string inside the octets; the library completes an Ed25519 key. */
  ghost predicate OkpPrivateIs(der: bytes, ed25519: Ed25519, jwk: Value) {
    exists version, algo, octets, name, r, d, r' ::
      Pkcs8(der, version, algo, octets) && EdwardsArcs(name).Some? &&
      Element(0x06, Oid(EdwardsArcs(name).value), algo, r) && Element(0x04, d, octets, r') &&
      jwk == OkpJwk(name, d, ed25519)
  }

  lemma Pkcs8Is(der: bytes, version: bytes, algo: bytes, octets: bytes)
    ensures Pkcs8(der, version, algo, octets) <==>
            ReadSequence(der).result.Ok? &&
            var v := ReadInteger(ReadSequence(der).result.value);
            var a := ReadSequence(v.rest);
            v.result == Ok(version) && a.result == Ok(algo) && ReadOctets(a.rest).result == Ok(octets)
  {
    hide Element, IntAt, ReadSequence, ReadInteger, ReadOctets;
    SequencesAre();
    IntegersAre();
    var top := ReadSequence(der);
    if top.result.Ok? {
      assert Element(0x30, top.result.value, der, top.rest);
      var v := ReadInteger(top.result.value);
      var a := ReadSequence(v.rest);
      if v.result.Ok? && a.result.Ok? && ReadOctets(a.rest).result.Ok? {
        assert IntAt(v.result.value, top.result.value, v.rest) && Element(0x30, a.result.value, v.rest, a.rest) &&
               Element(0x04, ReadOctets(a.rest).result.value, a.rest, ReadOctets(a.rest).rest);
      }
    }
  }

  /** `parse_okp_private` accepts exactly these. */
  lemma OkpPrivateIff(der: bytes, ed25519: Ed25519, jwk: Value)
    ensures ParseOkpPrivate(der, ed25519) == Ok(jwk) <==> OkpPrivateIs(der, ed25519, jwk)
  {
    if ParseOkpPrivate(der, ed25519) == Ok(jwk) {
      OkpPrivateRead(der, ed25519, jwk);
    }
    if OkpPrivateIs(der, ed25519, jwk) {
      OkpPrivateAccepted(der, ed25519, jwk);
    }
  }

  lemma OkpPrivateRead(der: bytes, ed25519: Ed25519, jwk: Value)
    requires ParseOkpPrivate(der, ed25519) == Ok(jwk)
    ensures OkpPrivateIs(der, ed25519, jwk)
  {
    hide Pkcs8, Element, ReadSequence, ReadInteger, ReadOctets, ReadOid, OkpName, EdwardsArcs, Oid, B, Base64.Encode;
    SequencesAre();
    var v := ReadInteger(ReadSequence(der).result.value);
    var a := ReadSequence(v.rest);
    var algo, octets := a.result.value, ReadOctets(a.rest).result.value;
    Pkcs8Is(der, v.result.value, algo, octets);
    var oid, d := ReadOid(algo), ReadOctets(octets);
    assert Element(0x06, oid.result.value, algo, oid.rest) && Element(0x04, d.result.value, octets, d.rest);
    OkpNameIff(oid.result.value, OkpName(oid.result.value).value);
  }

  lemma OkpPrivateAccepted(der: bytes, ed25519: Ed25519, jwk: Value)
    requires OkpPrivateIs(der, ed25519, jwk)
    ensures ParseOkpPrivate(der, ed25519) == Ok(jwk)
  {
    hide Pkcs8, Element, ReadSequence, ReadInteger, ReadOctets, ReadOid, OkpName, EdwardsArcs, Oid, B, Base64.Encode;
    SequencesAre();
    var version, algo, octets, name, r, d, r' :|
      Pkcs8(der, version, algo, octets) && EdwardsArcs(name).Some? &&
      Element(0x06, Oid(EdwardsArcs(name).value), algo, r) && Element(0x04, d, octets, r') &&
      jwk == OkpJwk(name, d, ed25519);
    Pkcs8Is(der, version, algo, octets);
    OkpNameIff(Oid(EdwardsArcs(name).value), name);
  }

  /** INTEGERs one after the other. */
  ghost predicate IntsAt(v: seq<bytes>, input: bytes) {
    v == [] || exists rest :: IntAt(v[0], input, rest) && IntsAt(v[1..], rest)
  }

  ghost predicate RsaFieldsAre(input: bytes, jwk: Value) {
    exists v ::
      |v| == 8 && IntsAt(v, input) &&
      jwk == Obj(map["kty" := Str(B("RSA")), "n" := Str(Text64(v[0])), "e" := Str(Text64(v[1])),
                     "d" := Str(Text64(v[2])), "p" := Str(Text64(v[3])), "q" := Str(Text64(v[4])),
                     "dp" := Str(Text64(v[5])), "dq" := Str(Text64(v[6])), "qi" := Str(Text64(v[7]))])
  }

  /**
   A SEQUENCE of a version and either the eight integers, or the RSA algorithm and an octet string that holds such
   a key.
   */
  ghost predicate RsaPrivateIs(der: bytes, jwk: Value)
    decreases |der|
  {
    exists top, r0, version, i0 ::
      Element(0x30, top, der, r0) && IntAt(version, top, i0) &&
      if i0 != [] && i0[0] == 0x30 then
        exists algo, i1, r, inner, r1 ::
          Element(0x30, algo, i0, i1) && Element(0x06, Oid(RSA_ARCS), algo, r) && Element(0x04, inner, i1, r1) &&
          |inner| < |der| && RsaPrivateIs(inner, jwk)
      else RsaFieldsAre(i0, jwk)
  }

  lemma IntsCons(a: bytes, v: seq<bytes>, input: bytes, rest: bytes)
    requires ReadInteger(input) == Read(Ok(a), rest) && IntsAt(v, rest)
    ensures IntsAt([a] + v, input)
  {
    IntegerIs(a, input, rest);
    assert ([a] + v)[1..] == v;
  }

  lemma IntsHead(v: seq<bytes>, input: bytes)
    requires v != [] && IntsAt(v, input)
    ensures ReadInteger(input).result == Ok(v[0]) && IntsAt(v[1..], ReadInteger(input).rest)
  {
    var rest :| IntAt(v[0], input, rest) && IntsAt(v[1..], rest);
    IntegerIs(v[0], input, rest);
  }

  lemma RsaFieldsIff(input: bytes, jwk: Value)
    ensures ParseRsaFields(input) == Ok(jwk) <==> RsaFieldsAre(input, jwk)
  {
    if ParseRsaFields(input) == Ok(jwk) {
      RsaFieldsRead(input, jwk);
    }
    if RsaFieldsAre(input, jwk) {
      RsaFieldsAccepted(input, jwk);
    }
  }

  lemma RsaFieldsRead(input: bytes, jwk: Value)
    requires ParseRsaFields(input) == Ok(jwk)
    ensures RsaFieldsAre(input, jwk)
  {
    hide ReadInteger, IntsAt, B, Base64.Encode;
    var r0 := ReadInteger(input);
    var r1 := ReadInteger(r0.rest);
    var r2 := ReadInteger(r1.rest);
    var r3 := ReadInteger(r2.rest);
    var r4 := ReadInteger(r3.rest);
    var r5 := ReadInteger(r4.rest);
    var r6 := ReadInteger(r5.rest);
    var r7 := ReadInteger(r6.rest);
    var a, b, c, d := r0.result.value, r1.result.value, r2.result.value, r3.result.value;
    var e, f, g, h := r4.result.value, r5.result.value, r6.result.value, r7.result.value;
    Eight(a, b, c, d, e, f, g, h);
    NoInts(r7.rest);
    IntsCons(h, [], r6.rest, r7.rest);
    IntsCons(g, [h], r5.rest, r6.rest);
    IntsCons(f, [g, h], r4.rest, r5.rest);
    IntsCons(e, [f, g, h], r3.rest, r4.rest);
    IntsCons(d, [e, f, g, h], r2.rest, r3.rest);
    IntsCons(c, [d, e, f, g, h], r1.rest, r2.rest);
    IntsCons(b, [c, d, e, f, g, h], r0.rest, r1.rest);
    IntsCons(a, [b, c, d, e, f, g, h], input, r0.rest);
    assert IntsAt([a, b, c, d, e, f, g, h], input);
  }

  lemma NoInts(input: bytes)
    ensures IntsAt([], input)
  {
  }

  lemma Eight(a: bytes, b: bytes, c: bytes, d: bytes, e: bytes, f: bytes, g: bytes, h: bytes)
    ensures [h] + [] == [h] && [g] + [h] == [g, h] && [f] + [g, h] == [f, g, h] && [e] + [f, g, h] == [e, f, g, h]
    ensures [d] + [e, f, g, h] == [d, e, f, g, h] && [c] + [d, e, f, g, h] == [c, d, e, f, g, h]
    ensures [b] + [c, d, e, f, g, h] == [b, c, d, e, f, g, h]
    ensures [a] + [b, c, d, e, f, g, h] == [a, b, c, d, e, f, g, h]
  {
  }

  lemma RsaFieldsAccepted(input: bytes, jwk: Value)
    requires RsaFieldsAre(input, jwk)
    ensures ParseRsaFields(input) == Ok(jwk)
  {
    hide ReadInteger, IntsAt, B, Base64.Encode;
    var v :|
      |v| == 8 && IntsAt(v, input) &&
      jwk == Obj(map["kty" := Str(B("RSA")), "n" := Str(Text64(v[0])), "e" := Str(Text64(v[1])),
                     "d" := Str(Text64(v[2])), "p" := Str(Text64(v[3])), "q" := Str(Text64(v[4])),
                     "dp" := Str(Text64(v[5])), "dq" := Str(Text64(v[6])), "qi" := Str(Text64(v[7]))]);
    var i1 := ReadInteger(input).rest;
    var i2 := ReadInteger(i1).rest;
    var i3 := ReadInteger(i2).rest;
    var i4 := ReadInteger(i3).rest;
    var i5 := ReadInteger(i4).rest;
    var i6 := ReadInteger(i5).rest;
    var i7 := ReadInteger(i6).rest;
    IntsHead(v, input);
    IntsHead(v[1..], i1);
    IntsHead(v[1..][1..], i2);
    IntsHead(v[1..][1..][1..], i3);
    IntsHead(v[1..][1..][1..][1..], i4);
    IntsHead(v[1..][1..][1..][1..][1..], i5);
    IntsHead(v[1..][1..][1..][1..][1..][1..], i6);
    IntsHead(v[1..][1..][1..][1..][1..][1..][1..], i7);
  }

  /** `parse_rsa_private` accepts exactly these. */
  lemma {:induction false} RsaPrivateIff(der: bytes, jwk: Value)
    ensures ParseRsaPrivate(der) == Ok(jwk) <==> RsaPrivateIs(der, jwk)
    decreases |der|
  {
    hide Element, IntAt, ReadSequence, ReadInteger, ReadOctets, ReadOid, ParseRsaFields, RsaFieldsAre, Oid;
    SequencesAre();
    IntegersAre();
    ArcsRsa();
    var top := ReadSequence(der);
    if top.result.Ok? {
      InnerShorter(der);
      assert Element(0x30, top.result.value, der, top.rest);
      var v := ReadInteger(top.result.value);
      if v.result.Ok? {
        assert IntAt(v.result.value, top.result.value, v.rest);
        if v.rest != [] && v.rest[0] == 0x30 {
          var algo := ReadSequence(v.rest);
          var octets := ReadOctets(algo.rest);
          if algo.result.Ok? && octets.result.Ok? {
            RsaPrivateIff(octets.result.value, jwk);
            assert Element(0x30, algo.result.value, v.rest, algo.rest);
            assert Element(0x04, octets.result.value, algo.rest, octets.rest);
            var oid := ReadOid(algo.result.value);
            if oid.result == Ok(OID_RSA) {
              assert Element(0x06, Oid(RSA_ARCS), algo.result.value, oid.rest);
            }
          }
        } else {
          RsaFieldsIff(v.rest, jwk);
        }
      }
    }
  }

  // ---------- EC private keys ----------

  /** The curve whose identifier starts the input, if there is one. */
  ghost predicate CurveAt(name: Option<bytes>, input: bytes) {
    if name.Some? then
      CurveRow(name.value).Some? && exists r :: Element(0x06, Oid(CurveRow(name.value).value.0), input, r)
    else forall n, r :: CurveRow(n).Some? ==> !Element(0x06, Oid(CurveRow(n).value.0), input, r)
  }

  /** A PrivateKeyInfo of version 0 for elliptic curves: what follows the two identifiers starts at curve. */
  ghost predicate EcInfo(der: bytes, curve: bytes, after: bytes) {
    exists top, r0, i0, algo ::
      Element(0x30, top, der, r0) && IntAt([0], top, i0) && Element(0x30, algo, i0, after) &&
      Element(0x06, Oid(EC_ARCS), algo, curve)
  }

  /** The curve of the header and the octets that hold the key; without a header there is no curve and all of der. */
  ghost predicate HeaderIs(der: bytes, name: Option<bytes>, input: bytes) {
    if exists curve, after :: EcInfo(der, curve, after) then
      exists curve, after :: EcInfo(der, curve, after) && CurveAt(name, curve) && OctetsOrAll(der, after, input)
    else name == None && input == der
  }

  ghost predicate OctetsOrAll(der: bytes, after: bytes, input: bytes) {
    if exists c, r :: Element(0x04, c, after, r) then exists r :: Element(0x04, input, after, r) else input == der
  }

  /** Parameters that name a curve override the header's. */
  ghost predicate CurveFrom(input: bytes, header: Option<bytes>, name: Option<bytes>) {
    if exists p, r :: Element(0xA0, p, input, r) then
      exists p, r, own :: Element(0xA0, p, input, r) && CurveAt(own, p) && name == if own.Some? then own else header
    else name == header
  }

  /** The public point, uncompressed and cut in the middle, is taken if it is there. */
  ghost predicate PointAt(input: bytes, xy: Option<(bytes, bytes)>) {
    if xy.Some? then
      |xy.value.0| <= |xy.value.1| <= |xy.value.0| + 1 &&
      exists b, r, r' :: Element(0xA1, b, input, r) && BitsAt([4] + xy.value.0 + xy.value.1, b, r')
    else
      forall b, r, bits, r' :: Element(0xA1, b, input, r) && BitsAt(bits, b, r') ==> bits == [] || bits[0] != 4
  }

  /** Where reading goes on behind the parameters, whether or not they could be read. */
  function PastParameters(input: bytes): bytes {
    if input != [] && input[0] == 0xA0 then ReadTag(input).rest else input
  }

  function EcJwk(name: bytes, d: bytes, xy: Option<(bytes, bytes)>): Value {
    if xy.Some?
    then Obj(map["kty" := Str(B("EC")), "crv" := Str(name), "d" := Str(Text64(d)),
                 "x" := Str(Text64(xy.value.0)), "y" := Str(Text64(xy.value.1))])
    else Obj(map["kty" := Str(B("EC")), "crv" := Str(name), "d" := Str(Text64(d))])
  }

  /** The pieces of an EC private key: its header, and the ECPrivateKey with what is left after each field. */
  datatype EcParts = EcParts(header: Option<bytes>, input: bytes, top: bytes, r0: bytes, version: bytes, i0: bytes,
                             d: bytes, i1: bytes, name: bytes, xy: Option<(bytes, bytes)>)

  ghost predicate PartsOf(der: bytes, m: EcParts) {
    HeaderIs(der, m.header, m.input) && Element(0x30, m.top, m.input, m.r0) && IntAt(m.version, m.top, m.i0) &&
    Element(0x04, m.d, m.i0, m.i1) && CurveFrom(m.i1, m.header, Some(m.name)) && PointAt(PastParameters(m.i1), m.xy)
  }

  ghost predicate EcPrivateIs(der: bytes, jwk: Value) {
    exists m :: PartsOf(der, m) && jwk == EcJwk(m.name, m.d, m.xy)
  }

  function NameOf(c: Option<Curve>): Option<bytes> {
    if c.Some? then Some(c.value.Name()) else None
  }

  /** The name of the curve a read identifier stands for. */
  function NameRead(input: bytes): Option<bytes> {
    var oid := ReadOid(input).result;
    if oid.Ok? then NameOf(CurveOfOid(oid.value)) else None
  }

  lemma CurveAtIs(name: Option<bytes>, input: bytes)
    ensures CurveAt(name, input) <==> name == NameRead(input)
  {
    hide Element, ReadOid, CurveOfOid, CurveRow, Oid, Curve.Name;
    SequencesAre();
    var oid := ReadOid(input);
    if oid.result.Ok? {
      var c := CurveOfOid(oid.result.value);
      if c.Some? {
        CurveOfOidIff(oid.result.value, c.value);
        assert Element(0x06, Oid(CurveRow(c.value.Name()).value.0), input, oid.rest);
      }
    }
    forall n, r | CurveRow(n).Some? && Element(0x06, Oid(CurveRow(n).value.0), input, r)
      ensures NameRead(input) == Some(n)
    {
      var c := CurveNamed(n);
      CurveOfOidIff(Oid(CurveRow(n).value.0), c);
    }
  }

  lemma EcInfoIs(der: bytes, curve: bytes, after: bytes)
    ensures EcInfo(der, curve, after) <==>
            ReadSequence(der).result.Ok? &&
            var v := ReadInteger(ReadSequence(der).result.value);
            var a := ReadSequence(v.rest);
            v.result == Ok([0]) && a.result.Ok? && ReadOid(a.result.value) == Read(Ok(OID_EC), curve) && a.rest == after
  {
    hide Element, IntAt, ReadSequence, ReadInteger, ReadOid, Oid;
    SequencesAre();
    IntegersAre();
    ArcsEc();
    var top := ReadSequence(der);
    if top.result.Ok? {
      assert Element(0x30, top.result.value, der, top.rest);
      var v := ReadInteger(top.result.value);
      if v.result == Ok([0]) {
        assert IntAt([0], top.result.value, v.rest);
        var a := ReadSequence(v.rest);
        if a.result.Ok? {
          assert Element(0x30, a.result.value, v.rest, a.rest);
        }
      }
    }
  }

  lemma HeaderFound(der: bytes)
    ensures ReadSequence(der).result.Ok? ==>
              var v := ReadInteger(ReadSequence(der).result.value);
              var a := ReadSequence(v.rest);
              (v.result == Ok([0]) && a.result.Ok? && ReadOid(a.result.value).result == Ok(OID_EC) ==>
               EcInfo(der, ReadOid(a.result.value).rest, a.rest))
  {
    hide EcInfo, ReadSequence, ReadInteger, ReadOid;
    if ReadSequence(der).result.Ok? {
      var v := ReadInteger(ReadSequence(der).result.value);
      var a := ReadSequence(v.rest);
      if a.result.Ok? {
        EcInfoIs(der, ReadOid(a.result.value).rest, a.rest);
      }
    }
  }

  lemma SequenceStarts(input: bytes)
    ensures ReadSequence(input).result.Ok? ==> input != [] && input[0] == 0x30
  {
  }

  lemma HeaderIff(der: bytes, name: Option<bytes>, input: bytes)
    ensures HeaderIs(der, name, input) <==> name == NameOf(EcHeader(der).0) && input == EcHeader(der).1
  {
    hide Element, EcInfo, CurveAt, OctetsOrAll, ReadSequence, ReadInteger, ReadOid, ReadOctets, CurveOfOid, Curve.Name;
    forall curve, after
      ensures EcInfo(der, curve, after) <==>
              ReadSequence(der).result.Ok? &&
              var v := ReadInteger(ReadSequence(der).result.value);
              var a := ReadSequence(v.rest);
              v.result == Ok([0]) && a.result.Ok? && ReadOid(a.result.value) == Read(Ok(OID_EC), curve) &&
              a.rest == after
    {
      EcInfoIs(der, curve, after);
    }
    HeaderFound(der);
    if curve, after :| EcInfo(der, curve, after) {
      SequenceStarts(ReadInteger(ReadSequence(der).result.value).rest);
      CurveAtIs(name, curve);
      OctetsIs(der, after, input);
    }
  }

  lemma OctetsIs(der: bytes, after: bytes, input: bytes)
    ensures OctetsOrAll(der, after, input) <==>
            input == if ReadOctets(after).result.Ok? then ReadOctets(after).result.value else der
  {
    hide Element, ReadOctets;
    SequencesAre();
    var o := ReadOctets(after);
    if o.result.Ok? {
      assert Element(0x04, o.result.value, after, o.rest);
    }
  }

  lemma OptionalIs(mark: byte, input: bytes, c: bytes, r: bytes)
    ensures Element(mark, c, input, r) <==> ReadOptional(mark, input) == Read(Ok(Some(c)), r)
  {
    hide Element;
    ReadTagIff(mark, c, input, r);
  }

  lemma CurveFromIs(input: bytes, header: Option<Curve>, name: Option<bytes>)
    ensures CurveFrom(input, NameOf(header), name) <==>
            name == NameOf(Sec1Curve(header, ReadOptional(0xA0, input).result))
  {
    hide Element, CurveAt, ReadOid, ReadOptional, CurveOfOid, Curve.Name;
    forall p, r
      ensures Element(0xA0, p, input, r) <==> ReadOptional(0xA0, input) == Read(Ok(Some(p)), r)
    {
      OptionalIs(0xA0, input, p, r);
    }
    var params := ReadOptional(0xA0, input);
    if params.result.Ok? && params.result.value.Some? {
      var p := params.result.value.value;
      assert Element(0xA0, p, input, params.rest);
      CurveAtIs(NameRead(p), p);
      forall own | CurveAt(own, p)
        ensures own == NameRead(p)
      {
        CurveAtIs(own, p);
      }
    }
  }

  lemma PointAtIs(input: bytes, xy: Option<(bytes, bytes)>)
    ensures PointAt(input, xy) <==> xy == Sec1Point(ReadOptional(0xA1, input).result)
  {
    hide Element, BitsAt, ReadOptional, ReadBits;
    BitStringsAre();
    forall b, r
      ensures Element(0xA1, b, input, r) <==> ReadOptional(0xA1, input) == Read(Ok(Some(b)), r)
    {
      OptionalIs(0xA1, input, b, r);
    }
    var public := ReadOptional(0xA1, input);
    if public.result.Ok? && public.result.value.Some? {
      var b := public.result.value.value;
      assert Element(0xA1, b, input, public.rest);
      var bits := ReadBits(b);
      if bits.result.Ok? {
        assert BitsAt(bits.result.value, b, bits.rest);
        MiddleCut(bits.result.value, xy);
      }
    }
  }

  lemma MiddleCut(bits: bytes, xy: Option<(bytes, bytes)>)
    ensures bits != [] && bits[0] == 4 ==>
              var len := (|bits| - 1) / 2;
              bits == [4] + bits[1..1 + len] + bits[1 + len..] &&
              (xy.Some? && |xy.value.0| <= |xy.value.1| <= |xy.value.0| + 1 && bits == [4] + xy.value.0 + xy.value.1 ==>
               xy == Some((bits[1..1 + len], bits[1 + len..])))
  {
    if xy.Some? && |xy.value.0| <= |xy.value.1| <= |xy.value.0| + 1 && bits == [4] + xy.value.0 + xy.value.1 {
      var len := (|bits| - 1) / 2;
      assert len == |xy.value.0|;
      assert bits[1..1 + len] == xy.value.0 && bits[1 + len..] == xy.value.1;
    }
  }

  lemma PastIs(input: bytes)
    ensures PastParameters(input) == ReadOptional(0xA0, input).rest
  {
  }

  /** `parse_ec_private` accepts exactly these. */
  lemma EcPrivateIff(der: bytes, jwk: Value)
    ensures ParseEcPrivate(der) == Ok(jwk) <==> EcPrivateIs(der, jwk)
  {
    if ParseEcPrivate(der) == Ok(jwk) {
      EcPrivateRead(der, jwk);
    }
    if m :| PartsOf(der, m) && jwk == EcJwk(m.name, m.d, m.xy) {
      EcPrivateParsed(der, m);
    }
  }

  lemma EcPrivateRead(der: bytes, jwk: Value)
    requires ParseEcPrivate(der) == Ok(jwk)
    ensures EcPrivateIs(der, jwk)
  {
    hide Element, IntAt, HeaderIs, CurveFrom, PointAt, EcHeader, ReadSequence, ReadInteger, ReadOctets, ReadOptional,
         Sec1Curve, Sec1Point, Curve.Name, PastParameters, EcJwk, EcPrivateJwk;
    SequencesAre();
    IntegersAre();
    var (header, input) := EcHeader(der);
    HeaderIff(der, NameOf(header), input);
    var top := ReadSequence(input);
    assert Element(0x30, top.result.value, input, top.rest);
    var v := ReadInteger(top.result.value);
    assert IntAt(v.result.value, top.result.value, v.rest);
    var d := ReadOctets(v.rest);
    assert Element(0x04, d.result.value, v.rest, d.rest);
    var params := ReadOptional(0xA0, d.rest);
    var c := Sec1Curve(header, params.result).value;
    CurveFromIs(d.rest, header, Some(c.Name()));
    PastIs(d.rest);
    var xy := Sec1Point(ReadOptional(0xA1, params.rest).result);
    PointAtIs(params.rest, xy);
    JwkOf(c, c.Name(), d.result.value, xy);
    assert PartsOf(der, EcParts(NameOf(header), input, top.result.value, top.rest, v.result.value, v.rest,
                                d.result.value, d.rest, c.Name(), xy));
  }

  lemma EcPrivateParsed(der: bytes, m: EcParts)
    requires PartsOf(der, m)
    ensures ParseEcPrivate(der) == Ok(EcJwk(m.name, m.d, m.xy))
  {
    hide Element, IntAt, HeaderIs, CurveFrom, PointAt, EcHeader, ReadTagged, ReadInteger, ReadOptional, Sec1Curve,
         Sec1Point, Curve.Name, PastParameters, EcJwk, EcPrivateJwk;
    HeaderIff(der, m.header, m.input);
    ReadTaggedIff(0x30, m.top, m.input, m.r0);
    IntegerIs(m.version, m.top, m.i0);
    ReadTaggedIff(0x04, m.d, m.i0, m.i1);
    CurveFromIs(m.i1, EcHeader(der).0, Some(m.name));
    PastIs(m.i1);
    PointAtIs(PastParameters(m.i1), m.xy);
    JwkOf(Sec1Curve(EcHeader(der).0, ReadOptional(0xA0, m.i1).result).value, m.name, m.d, m.xy);
  }

  lemma JwkOf(c: Curve, name: bytes, d: bytes, xy: Option<(bytes, bytes)>)
    requires c.Name() == name
    ensures EcPrivateJwk(c, d, xy)
         == EcJwk(name, d, xy)
  {
  }

  // ---------- the trials ----------

  /** What the trials give: the first reading that applies, in this order, with nothing read before it. */
  ghost predicate Dispatched(isPublic: bool, isPrivate: bool, der: bytes, ed25519: Ed25519, jwk: Value) {
    var rsa := isPublic && exists j :: RsaPublicIs(der, j);
    var ec := isPublic && exists j :: EcPublicIs(der, j);
    var okp := isPublic && exists j :: OkpPublicIs(der, j);
    var rsaPrivate := isPrivate && exists j :: RsaPrivateIs(der, j);
    var ecPrivate := isPrivate && exists j :: EcPrivateIs(der, j);
    if rsa then RsaPublicIs(der, jwk)
    else if ec then EcPublicIs(der, jwk)
    else if okp then OkpPublicIs(der, jwk)
    else if rsaPrivate then RsaPrivateIs(der, jwk)
    else if ecPrivate then EcPrivateIs(der, jwk)
    else isPrivate && OkpPrivateIs(der, ed25519, jwk)
  }

  /** The trials of `pem_to_jwk` on any DER. */
  lemma DispatchIff(isPublic: bool, isPrivate: bool, der: bytes, ed25519: Ed25519, jwk: Value)
    ensures Dispatch(isPublic, isPrivate, der, ed25519) == Ok(jwk)
       <==> Dispatched(isPublic, isPrivate, der, ed25519, jwk)
  {
    hide RsaPublicIs, EcPublicIs, OkpPublicIs, RsaPrivateIs, EcPrivateIs, OkpPrivateIs, ParseRsaPublic, ParseEcPublic,
         ParseOkpPublic, ParseRsaPrivate, ParseEcPrivate, ParseOkpPrivate;
    forall j
      ensures ParseRsaPublic(der) == Ok(j) <==> RsaPublicIs(der, j)
      ensures ParseEcPublic(der) == Ok(j) <==> EcPublicIs(der, j)
      ensures ParseOkpPublic(der) == Ok(j) <==> OkpPublicIs(der, j)
      ensures ParseRsaPrivate(der) == Ok(j) <==> RsaPrivateIs(der, j)
      ensures ParseEcPrivate(der) == Ok(j) <==> EcPrivateIs(der, j)
      ensures ParseOkpPrivate(der, ed25519) == Ok(j) <==> OkpPrivateIs(der, ed25519, j)
    {
      RsaPublicIff(der, j);
      EcPublicIff(der, j);
      OkpPublicIff(der, j);
      RsaPrivateIff(der, j);
      EcPrivateIff(der, j);
      OkpPrivateIff(der, ed25519, j);
    }
  }
}
