/** The key printer of src/jwk.rs and the key parsers of src/key_utils.rs, working on byte vectors and readers. */
module KeyCode {
  import opened Bytes
  import opened Der
  import opened DerCode
  import opened Json
  import opened KeyFormats
  import RsaCrt
  import RsaMath

  method ExtractOrRecoverRsaComponents(jwk: Value, rng: seq<seq<RsaMath.Fill>>)
      returns (res: Result<RsaCrt.Components, KeyError>)
    requires Recoverable(jwk) && |rng| == 100 && forall i :: 0 <= i < 100 ==> |rng[i]| == 10
    ensures res == RsaComponents(jwk, rng)
  {
    hide GetBigUint, RsaCrt.RecoveredComponents;
    var n :- GetBigUint(jwk, "n");
    var e :- GetBigUint(jwk, "e");
    var d :- GetBigUint(jwk, "d");
    if jwk.Get("p").Some? {
      var p :- GetBigUint(jwk, "p");
      var q :- GetBigUint(jwk, "q");
      var dp :- GetBigUint(jwk, "dp");
      var dq :- GetBigUint(jwk, "dq");
      var qi :- GetBigUint(jwk, "qi");
      return Ok(RsaCrt.Components(n, e, d, p, q, dp, dq, qi));
    }
    var r := RsaCrt.RecoverComponents(n, e, d, rng);
    if r.Err? {
      return Err(Unrecoverable(r.error));
    }
    return Ok(r.value);
  }

  // ---------- printing ----------

  method PrintRsaPrivate(k: RsaCrt.Components) returns (der: bytes)
    ensures der == RsaPrivateDer(k)
  {
    hide IntTlv;
    var v := new ByteVec();
    v.EncodeDerInt([0]);
    v.EncodeDerInt(ToBE(k.n));
    v.EncodeDerInt(ToBE(k.e));
    v.EncodeDerInt(ToBE(k.d));
    v.EncodeDerInt(ToBE(k.p));
    v.EncodeDerInt(ToBE(k.q));
    v.EncodeDerInt(ToBE(k.dp));
    v.EncodeDerInt(ToBE(k.dq));
    v.EncodeDerInt(ToBE(k.qi));
    FromToBE(k.n);
    FromToBE(k.e);
    FromToBE(k.d);
    FromToBE(k.p);
    FromToBE(k.q);
    FromToBE(k.dp);
    FromToBE(k.dq);
    FromToBE(k.qi);
    assert FromBE([0]) == 0 by { assert [0][..0] == []; }
    NineParts([], IntTlv(0), IntTlv(k.n), IntTlv(k.e), IntTlv(k.d), IntTlv(k.p), IntTlv(k.q), IntTlv(k.dp),
              IntTlv(k.dq), IntTlv(k.qi));
    var out := new ByteVec();
    out.EncodeTlv(0x30, v.data);
    der := out.data;
  }

  /** Concatenation is associative, nine times over. */
  lemma NineParts(z: bytes, a: bytes, b: bytes, c: bytes, d: bytes, e: bytes, f: bytes, g: bytes, h: bytes, i: bytes)
    ensures z + a + b + c + d + e + f + g + h + i == z + (a + (b + (c + (d + (e + (f + (g + (h + i))))))))
  {
  }

  lemma FiveParts(z: bytes, a: bytes, b: bytes, c: bytes, d: bytes, e: bytes)
    ensures z + a + b + c + d + e == z + (a + (b + (c + (d + e))))
  {
  }

  method PrintBitString(content: bytes) returns (out: bytes)
    ensures out == BitString(content)
  {
    hide DerLen;
    var bits := new ByteVec();
    bits.Push(0x03);
    bits.EncodeDerLen(|content| + 1);
    bits.Push(0x00);
    bits.Extend(content);
    assert |[0] + content| == |content| + 1;
    assert bits.data == [0x03] + DerLen(|content| + 1) + ([0] + content);
    out := bits.data;
  }

  method PrintRsaSpki(n: nat, e: nat) returns (der: bytes)
    ensures der == RsaSpki(n, e)
  {
    hide DerLen, IntTlv, OID_RSA;
    var fields := new ByteVec();
    FromToBE(n);
    FromToBE(e);
    fields.EncodeDerInt(ToBE(n));
    fields.EncodeDerInt(ToBE(e));
    assert fields.data == IntTlv(n) + IntTlv(e);
    var pkcs1 := EncodeDerSequence(fields.data);
    var algo := new ByteVec();
    algo.EncodeTlv(0x06, OID_RSA);
    algo.Push(0x05);
    algo.Push(0x00);
    assert algo.data == RSA_ALGORITHM;
    var wrap := EncodeDerSequence(algo.data);
    var bits := PrintBitString(pkcs1);
    der := PrintPair(wrap, bits);
  }

  /** A SEQUENCE of two elements. */
  method PrintPair(first: bytes, second: bytes) returns (out: bytes)
    ensures out == Tlv(0x30, first + second)
  {
    hide DerLen;
    var v := new ByteVec();
    v.Push(0x30);
    v.EncodeDerLen(|first| + |second|);
    v.Extend(first);
    v.Extend(second);
    assert v.data == [0x30] + DerLen(|first + second|) + (first + second);
    out := v.data;
  }

  lemma SmallIntegers()
    ensures IntTlv(0) == [0x02, 0x01, 0x00] && IntTlv(1) == [0x02, 0x01, 0x01]
  {
  }

  lemma RsaAlgorithmBytes()
    ensures Tlv(0x30, RSA_ALGORITHM)
         == [0x30, 0x0d, 0x06, 0x09, 0x2a, 0x86, 0x48, 0x86, 0xf7, 0x0d, 0x01, 0x01, 0x01, 0x05, 0x00]
  {
  }

  method WrapPkcs1AsPkcs8(pkcs1: bytes) returns (der: bytes)
    ensures der == Pkcs8Rsa(pkcs1)
  {
    hide IntTlv, Tlv, DerLen, RSA_ALGORITHM;
    var v := new ByteVec();
    v.Extend([0x02, 0x01, 0x00]);
    v.Extend([0x30, 0x0d, 0x06, 0x09, 0x2a, 0x86, 0x48, 0x86, 0xf7, 0x0d, 0x01, 0x01, 0x01, 0x05, 0x00]);
    SmallIntegers();
    RsaAlgorithmBytes();
    v.EncodeTlv(0x04, pkcs1);
    assert v.data == IntTlv(0) + (Tlv(0x30, RSA_ALGORITHM) + Tlv(0x04, pkcs1));
    der := EncodeDerSequence(v.data);
  }

  method PrintPublicPart(xy: Option<(bytes, bytes)>) returns (out: bytes)
    ensures out == PublicPart(xy)
  {
    hide Tlv, BitString;
    if xy == None {
      return [];
    }
    var point := new ByteVec();
    point.Push(0x04);
    point.Extend(xy.value.0);
    point.Extend(xy.value.1);
    assert point.data == [0x04] + (xy.value.0 + xy.value.1);
    var bits := PrintBitString(point.data);
    var v := new ByteVec();
    v.EncodeTlv(0xA1, bits);
    return v.data;
  }

  method PrintSec1(c: Curve, d: bytes, xy: Option<(bytes, bytes)>) returns (der: bytes)
    ensures der == Sec1(c, d, xy)
  {
    hide Tlv, IntTlv, OidTlv, PublicPart;
    var sec1 := new ByteVec();
    sec1.Extend([0x02, 0x01, 0x01]);
    SmallIntegers();
    sec1.EncodeTlv(0x04, d);
    sec1.EncodeTlv(0xA0, OidTlv(c.Oid()));
    var public := PrintPublicPart(xy);
    sec1.Extend(public);
    FourParts(IntTlv(1), Tlv(0x04, d), Tlv(0xA0, OidTlv(c.Oid())), public);
    der := EncodeDerSequence(sec1.data);
  }

  lemma FourParts(a: bytes, b: bytes, c: bytes, d: bytes)
    ensures [] + a + b + c + d == a + (b + (c + d))
  {
  }

  method PrintPkcs8Ec(c: Curve, d: bytes, xy: Option<(bytes, bytes)>) returns (der: bytes)
    ensures der == Pkcs8Ec(c, d, xy)
  {
    hide Tlv, IntTlv, OidTlv, Sec1;
    var sec1 := PrintSec1(c, d, xy);
    var algId := new ByteVec();
    algId.Extend(OidTlv(OID_EC));
    algId.Extend(OidTlv(c.Oid()));
    assert algId.data == OidTlv(OID_EC) + OidTlv(c.Oid());
    var algSeq := EncodeDerSequence(algId.data);
    var inner := new ByteVec();
    inner.Extend([0x02, 0x01, 0x00]);
    SmallIntegers();
    inner.Extend(algSeq);
    inner.EncodeTlv(0x04, sec1);
    assert inner.data == IntTlv(0) + (EcAlgorithm(c) + Tlv(0x04, sec1));
    der := EncodeDerSequence(inner.data);
  }

  /** The check loop of `validate_ec_coordinates`. */
  method ValidateEcCoordinates(jwk: Value) returns (res: Result<(), KeyError>)
    ensures res.Ok? <==> ValidEcCoordinates(jwk)
  {
    hide B, Member, CurveOfName;
    if jwk.GetStr("kty") != Some(B("EC")) {
      return Ok(());
    }
    var c := CurveOfName(if jwk.GetStr("crv").Some? then jwk.GetStr("crv").value else []);
    if c == None {
      return Ok(());
    }
    var names := ["x", "y", "d"];
    for i := 0 to |names|
      invariant forall k :: 0 <= k < i ==> jwk.GetStr(names[k]).Some? ==>
        Member(jwk, names[k]).Ok? && |Member(jwk, names[k]).value| == c.value.Size()
    {
      if jwk.GetStr(names[i]).Some? {
        assert names[i] in {"x", "y", "d"};
        var coordinate :- Member(jwk, names[i]);
        if |coordinate| != c.value.Size() {
          return Err(BadLength);
        }
      }
    }
    assert names[0] == "x" && names[1] == "y" && names[2] == "d";
    return Ok(());
  }

  method ExtractKeyBytes(jwk: Value, publicOnly: bool, rng: seq<seq<RsaMath.Fill>>)
      returns (res: Result<bytes, KeyError>)
    requires Printable(jwk, publicOnly) && |rng| == 100 && forall i :: 0 <= i < 100 ==> |rng[i]| == 10
    ensures res == KeyBytes(jwk, publicOnly, rng)
  {
    hide B, Member, Recoverable, GetBigUint, RsaComponents, RsaPrivateDer, RsaSpki, Pkcs8Ec, CurveOfName;
    var kty := if jwk.GetStr("kty").Some? then jwk.GetStr("kty").value else [];
    if kty == B("oct") {
      return Member(jwk, "k");
    }
    if kty == B("OKP") {
      if !publicOnly && jwk.GetStr("d").Some? {
        return Member(jwk, "d");
      }
      return Member(jwk, "x");
    }
    if kty == B("RSA") {
      var n :- GetBigUint(jwk, "n");
      var e :- GetBigUint(jwk, "e");
      if !publicOnly && jwk.Get("d").Some? {
        var k := ExtractOrRecoverRsaComponents(jwk, rng);
        if k.Err? {
          return Err(k.error);
        }
        var der := PrintRsaPrivate(k.value);
        return Ok(der);
      }
      var spki := PrintRsaSpki(n, e);
      return Ok(spki);
    }
    if kty == B("EC") {
      if !publicOnly && jwk.GetStr("d").Some? {
        var d :- Member(jwk, "d");
        if jwk.GetStr("crv") == None {
          return Err(Missing("crv"));
        }
        var c := CurveOfName(jwk.GetStr("crv").value);
        if c == None {
          return Err(UnsupportedCurve);
        }
        var x, y := Member(jwk, "x"), Member(jwk, "y");
        var der := PrintPkcs8Ec(c.value, d, if x.Ok? && y.Ok? then Some((x.value, y.value)) else None);
        return Ok(der);
      }
      if jwk.GetStr("x").Some? && jwk.GetStr("y").Some? {
        var x :- Member(jwk, "x");
        var y :- Member(jwk, "y");
        var out := new ByteVec();
        out.Push(0x04);
        out.Extend(x);
        out.Extend(y);
        assert out.data == [0x04] + x + y;
        return Ok(out.data);
      }
      return Err(Missing("x"));
    }
    return Err(UnsupportedKeyType);
  }

  // ---------- parsing ----------

  method ParseRsaPrivate(der: bytes) returns (res: Result<Value, KeyError>)
    ensures res == KeyFormats.ParseRsaPrivate(der)
    decreases |der|
  {
    hide ReadSequence, ReadInteger, ReadOctets, ReadOid, RsaPrivateJwk, ParseRsaFields;
    var outer := new DerReader(der);
    var top := outer.ReadSequence();
    if top.Err? {
      return Err(NotASequence);
    }
    InnerShorter(der);
    var reader := top.value;
    var ver := reader.ReadIntegerBytes();
    if ver.Err? {
      return Err(BadField("Version", ver.error));
    }
    if reader.input != [] && reader.input[0] == 0x30 {
      var algo := reader.ReadSequence();
      if algo.Err? {
        return Err(BadField("AlgoId", algo.error));
      }
      var oid := algo.value.ReadOid();
      if oid.Err? {
        return Err(BadField("OID", oid.error));
      }
      if oid.value != OID_RSA {
        return Err(WrongOid);
      }
      var inner := reader.ReadOctetString();
      if inner.Err? {
        return Err(BadField("PrivateKey octets", inner.error));
      }
      res := ParseRsaPrivate(inner.value);
      return;
    }
    res := ReadRsaFields(reader);
  }

  /** The eight integer reads at the end of `parse_rsa_private`. */
  method ReadRsaFields(reader: DerReader) returns (res: Result<Value, KeyError>)
    modifies reader
    ensures res == ParseRsaFields(old(reader.input))
  {
    hide ReadInteger, RsaPrivateJwk;
    var n := reader.ReadIntegerBytes();
    if n.Err? { return Err(BadField("n", n.error)); }
    var e := reader.ReadIntegerBytes();
    if e.Err? { return Err(BadField("e", e.error)); }
    var d := reader.ReadIntegerBytes();
    if d.Err? { return Err(BadField("d", d.error)); }
    var p := reader.ReadIntegerBytes();
    if p.Err? { return Err(BadField("p", p.error)); }
    var q := reader.ReadIntegerBytes();
    if q.Err? { return Err(BadField("q", q.error)); }
    var dp := reader.ReadIntegerBytes();
    if dp.Err? { return Err(BadField("dp", dp.error)); }
    var dq := reader.ReadIntegerBytes();
    if dq.Err? { return Err(BadField("dq", dq.error)); }
    var qi := reader.ReadIntegerBytes();
    if qi.Err? { return Err(BadField("qi", qi.error)); }
    return Ok(RsaPrivateJwk(n.value, e.value, d.value, p.value, q.value, dp.value, dq.value, qi.value));
  }

  method ParseRsaPublic(der: bytes) returns (res: Result<Value, KeyError>)
    ensures res == KeyFormats.ParseRsaPublic(der)
  {
    hide ReadSequence, ReadInteger, ReadBits, RsaPublicJwk;
    var outer := new DerReader(der);
    var top := outer.ReadSequence();
    if top.Err? { return Err(BadField("", top.error)); }
    var reader := top.value;
    if reader.input != [] && reader.input[0] == 0x30 {
      var algo := reader.ReadSequence();
      if algo.Err? { return Err(BadField("", algo.error)); }
      var bits := reader.ReadBitString();
      if bits.Err? { return Err(BadField("", bits.error)); }
      var inner := new DerReader(bits.value);
      var fields := inner.ReadSequence();
      if fields.Err? { return Err(BadField("", fields.error)); }
      reader := fields.value;
    }
    var n := reader.ReadIntegerBytes();
    if n.Err? { return Err(BadField("", n.error)); }
    var e := reader.ReadIntegerBytes();
    if e.Err? { return Err(BadField("", e.error)); }
    return Ok(RsaPublicJwk(n.value, e.value));
  }

  method ParseOkpPublic(der: bytes) returns (res: Result<Value, KeyError>)
    ensures res == KeyFormats.ParseOkpPublic(der)
  {
    hide ReadSequence, ReadOid, ReadBits, OkpName, B64;
    var outer := new DerReader(der);
    var top := outer.ReadSequence();
    if top.Err? { return Err(BadField("", top.error)); }
    var reader := top.value;
    var algo := reader.ReadSequence();
    if algo.Err? { return Err(BadField("", algo.error)); }
    var oid := algo.value.ReadOid();
    if oid.Err? { return Err(BadField("", oid.error)); }
    var crv := OkpName(oid.value);
    if crv == None { return Err(WrongOid); }
    var bits := reader.ReadBitString();
    if bits.Err? { return Err(BadField("", bits.error)); }
    return Ok(Obj(map["kty" := Str(B("OKP")), "crv" := Str(crv.value), "x" := Str(B64(bits.value))]));
  }

  method ParseOkpPrivate(der: bytes, ed25519: Ed25519) returns (res: Result<Value, KeyError>)
    ensures res == KeyFormats.ParseOkpPrivate(der, ed25519)
  {
    hide ReadSequence, ReadOid, ReadInteger, ReadOctets, OkpName, B64;
    var outer := new DerReader(der);
    var top := outer.ReadSequence();
    if top.Err? { return Err(BadField("", top.error)); }
    var reader := top.value;
    var ver := reader.ReadIntegerBytes();
    if ver.Err? { return Err(BadField("", ver.error)); }
    var algo := reader.ReadSequence();
    if algo.Err? { return Err(BadField("", algo.error)); }
    var oid := algo.value.ReadOid();
    if oid.Err? { return Err(BadField("", oid.error)); }
    var crv := OkpName(oid.value);
    if crv == None { return Err(WrongOid); }
    var octets := reader.ReadOctetString();
    if octets.Err? { return Err(BadField("", octets.error)); }
    var inner := new DerReader(octets.value);
    var d := inner.ReadOctetString();
    if d.Err? { return Err(BadField("", d.error)); }
    var j := map["kty" := Str(B("OKP")), "crv" := Str(crv.value), "d" := Str(B64(d.value))];
    if oid.value == OID_ED25519 && ed25519(d.value).Some? {
      j := j["x" := Str(B64(ed25519(d.value).value))];
    }
    return Ok(Obj(j));
  }

  method ParseEcPublic(der: bytes) returns (res: Result<Value, KeyError>)
    ensures res == KeyFormats.ParseEcPublic(der)
  {
    hide ReadSequence, ReadOid, ReadBits, CurveOfOid, B64;
    var outer := new DerReader(der);
    var top := outer.ReadSequence();
    if top.Err? { return Err(BadField("", top.error)); }
    var reader := top.value;
    var algo := reader.ReadSequence();
    if algo.Err? { return Err(BadField("", algo.error)); }
    var id := algo.value.ReadOid();
    if id.Err? { return Err(BadField("", id.error)); }
    var oid := algo.value.ReadOid();
    if oid.Err? { return Err(BadField("", oid.error)); }
    var c := CurveOfOid(oid.value);
    if c == None { return Err(UnknownCurve); }
    var bits := reader.ReadBitString();
    if bits.Err? { return Err(BadField("", bits.error)); }
    var len := c.value.Size();
    if |bits.value| < 1 + 2 * len || bits.value[0] != 0x04 { return Err(InvalidPoint); }
    return Ok(Obj(map["kty" := Str(B("EC")), "crv" := Str(c.value.Name()),
                      "x" := Str(B64(bits.value[1..1 + len])), "y" := Str(B64(bits.value[1 + len..1 + 2 * len]))]));
  }

  /** The first half of `parse_ec_private`: look for a PKCS#8 header, keeping going on every failure. */
  method ReadEcHeader(der: bytes) returns (crv: Option<Curve>, input: bytes)
    ensures (crv, input) == EcHeader(der)
  {
    hide ReadSequence, ReadOid, ReadOctets, ReadInteger, CurveOfOid;
    crv, input := None, der;
    var temp := new DerReader(der);
    var s := temp.ReadSequence();
    if s.Ok? {
      var reader := s.value;
      var ver := reader.ReadIntegerBytes();
      if ver.Ok? {
        if ver.value == [0] && reader.input != [] && reader.input[0] == 0x30 {
          var algo := reader.ReadSequence();
          if algo.Ok? {
            var oid := algo.value.ReadOid();
            if oid.Ok? && oid.value == OID_EC {
              var curve := algo.value.ReadOid();
              if curve.Ok? {
                crv := CurveOfOid(curve.value);
              }
              var inner := reader.ReadOctetString();
              if inner.Ok? {
                input := inner.value;
              }
            }
          }
        }
      }
    }
  }

  method ParseEcPrivate(der: bytes) returns (res: Result<Value, KeyError>)
    ensures res == KeyFormats.ParseEcPrivate(der)
  {
    hide EcHeader, ReadSequence, ReadInteger, ReadOctets, ReadOptional, ReadOid, ReadBits, CurveOfOid, EcPrivateJwk;
    var crv, input := ReadEcHeader(der);
    var outer := new DerReader(input);
    var top := outer.ReadSequence();
    if top.Err? { return Err(BadField("", top.error)); }
    var reader := top.value;
    var ver := reader.ReadIntegerBytes();
    if ver.Err? { return Err(BadField("", ver.error)); }
    var d := reader.ReadOctetString();
    if d.Err? { return Err(BadField("", d.error)); }
    var params := reader.ReadOptionalExplicit(0);
    if params.Ok? && params.value.Some? {
      var oid := params.value.value.ReadOid();
      if oid.Ok? {
        var inner := CurveOfOid(oid.value);
        if inner.Some? {
          crv := inner;
        }
      }
    }
    if crv == None { return Err(UnknownCurve); }
    var xy: Option<(bytes, bytes)> := None;
    var public := reader.ReadOptionalExplicit(1);
    if public.Ok? && public.value.Some? {
      var bits := public.value.value.ReadBitString();
      if bits.Ok? {
        if bits.value != [] && bits.value[0] == 0x04 {
          var len := (|bits.value| - 1) / 2;
          xy := Some((bits.value[1..1 + len], bits.value[1 + len..]));
        }
      }
    }
    return Ok(EcPrivateJwk(crv.value, d.value, xy));
  }

  /** The trial sequence at the end of `pem_to_jwk`. */
  method DispatchDer(isPublic: bool, isPrivate: bool, der: bytes, ed25519: Ed25519)
      returns (res: Result<Value, KeyError>)
    ensures res == Dispatch(isPublic, isPrivate, der, ed25519)
  {
    hide KeyFormats.ParseRsaPublic, KeyFormats.ParseEcPublic, KeyFormats.ParseOkpPublic;
    hide KeyFormats.ParseRsaPrivate, KeyFormats.ParseEcPrivate, KeyFormats.ParseOkpPrivate;
    if isPublic {
      res := ParseRsaPublic(der);
      if res.Ok? { return; }
      res := ParseEcPublic(der);
      if res.Ok? { return; }
      res := ParseOkpPublic(der);
      if res.Ok? { return; }
    }
    if isPrivate {
      res := ParseRsaPrivate(der);
      if res.Ok? { return; }
      res := ParseEcPrivate(der);
      if res.Ok? { return; }
      res := ParseOkpPrivate(der, ed25519);
      if res.Ok? { return; }
    }
    return Err(UnknownFormat);
  }
}
