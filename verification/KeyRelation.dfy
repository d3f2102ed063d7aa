/**
 What `extract_key_bytes` prints and what the key parsers accept, as relations over DER elements with literal tags,
 object identifiers by their arcs and JWK members by their names; and the theorems that src/jwk.rs and
 src/key_utils.rs compute exactly these relations.
 */
module KeyRelation {
  import opened Base64Bits
  import opened Bytes
  import opened Der
  import opened Json
  import opened KeyFormats
  import opened KeyRoundTrip
  import Base64
  import RsaCrt
  import RsaMath
  import RsaRecovery

  // ---------- object identifiers (X.690, section 8.19) ----------

  /** The base-128 octets of a subidentifier; all but the last carry the top bit. */
  function Subidentifier(n: nat, more: bool): bytes {
    (if n < 128 then [] else Subidentifier(n / 128, true)) + [n % 128 + if more then 128 else 0]
  }

  function Subidentifiers(arcs: seq<nat>): bytes {
    if arcs == [] then [] else Subidentifier(arcs[0], false) + Subidentifiers(arcs[1..])
  }

  /** The content octets of an identifier given by its arcs. */
  function Oid(arcs: seq<nat>): bytes
    requires |arcs| >= 2
  {
    Subidentifier(40 * arcs[0] + arcs[1], false) + Subidentifiers(arcs[2..])
  }

  const RSA_ARCS: seq<nat> := [1, 2, 840, 113549, 1, 1, 1]
  const EC_ARCS: seq<nat> := [1, 2, 840, 10045, 2, 1]

  /** Name, arcs and field size in bits of the curves. */
  function CurveRow(name: bytes): (r: Option<(seq<nat>, nat)>)
    ensures r.Some? ==> |r.value.0| >= 2
  {
    if name == B("P-192") then Some(([1, 2, 840, 10045, 3, 1, 1], 192))
    else if name == B("P-256") then Some(([1, 2, 840, 10045, 3, 1, 7], 256))
    else if name == B("P-384") then Some(([1, 3, 132, 0, 34], 384))
    else if name == B("P-521") then Some(([1, 3, 132, 0, 35], 521))
    else if name == B("secp256k1") then Some(([1, 3, 132, 0, 10], 256))
    else None
  }

  function EdwardsArcs(name: bytes): (r: Option<seq<nat>>)
    ensures r.Some? ==> |r.value| >= 2
  {
    if name == B("Ed25519") then Some([1, 3, 101, 112]) else if name == B("Ed448") then Some([1, 3, 101, 113]) else None
  }

  lemma Small(n: byte)
    requires n < 128
    ensures Subidentifier(n, false) == [n]
  {
  }

  lemma Large()
    ensures Subidentifier(840, false) == [0x86, 0x48] && Subidentifier(10045, false) == [0xce, 0x3d]
    ensures Subidentifier(113549, false) == [0x86, 0xf7, 0x0d] && Subidentifier(132, false) == [0x81, 0x04]
  {
  }

  lemma OneArc(n: byte)
    requires n < 128
    ensures Subidentifiers([n]) == [n]
  {
    Small(n);
  }

  lemma TwoArcs(m: byte, n: byte)
    requires m < 128 && n < 128
    ensures Subidentifiers([m, n]) == [m, n]
  {
    Small(m);
    OneArc(n);
    assert [m as nat, n][1..] == [n];
  }

  lemma ThreeArcs(k: byte, m: byte, n: byte)
    requires k < 128 && m < 128 && n < 128
    ensures Subidentifiers([k, m, n]) == [k, m, n]
  {
    Small(k);
    TwoArcs(m, n);
    assert [k as nat, m, n][1..] == [m, n];
  }

  lemma Next(arc: nat, tail: seq<nat>)
    ensures Subidentifiers([arc] + tail) == Subidentifier(arc, false) + Subidentifiers(tail)
  {
    assert ([arc] + tail)[1..] == tail;
  }

  lemma After(a: nat, b: nat, tail: seq<nat>)
    ensures Oid([a, b] + tail) == Subidentifier(40 * a + b, false) + Subidentifiers(tail)
  {
    assert ([a, b] + tail)[2..] == tail;
  }

  lemma ArcsRsa()
    ensures Oid(RSA_ARCS) == OID_RSA
  {
    hide Subidentifier, Subidentifiers, Oid;
    Large();
    Small(42);
    ThreeArcs(1, 1, 1);
    Next(113549, [1, 1, 1]);
    Next(840, [113549] + [1, 1, 1]);
    After(1, 2, [840] + ([113549] + [1, 1, 1]));
    assert RSA_ARCS == [1, 2] + ([840] + ([113549] + [1, 1, 1]));
  }

  lemma ArcsEc()
    ensures Oid(EC_ARCS) == OID_EC && Oid([1, 2, 840, 10045, 3, 1, 1]) == OID_P192
    ensures Oid([1, 2, 840, 10045, 3, 1, 7]) == OID_P256
  {
    hide Subidentifier, Subidentifiers, Oid;
    Ansi([2, 1]);
    Ansi([3, 1, 1]);
    Ansi([3, 1, 7]);
    TwoArcs(2, 1);
    ThreeArcs(3, 1, 1);
    ThreeArcs(3, 1, 7);
    assert [1, 2, 840, 10045] + [2, 1] == EC_ARCS;
    assert [1, 2, 840, 10045] + [3, 1, 1] == [1, 2, 840, 10045, 3, 1, 1];
    assert [1, 2, 840, 10045] + [3, 1, 7] == [1, 2, 840, 10045, 3, 1, 7];
  }

  lemma Ansi(tail: seq<nat>)
    ensures Oid([1, 2, 840, 10045] + tail) == [0x2a, 0x86, 0x48, 0xce, 0x3d] + Subidentifiers(tail)
  {
    hide Subidentifier, Subidentifiers, Oid;
    Large();
    Small(42);
    Next(10045, tail);
    Next(840, [10045] + tail);
    After(1, 2, [840] + ([10045] + tail));
    assert [1, 2, 840, 10045] + tail == [1, 2] + ([840] + ([10045] + tail));
  }

  lemma ArcsCerticom(last: byte)
    requires last < 128
    ensures Oid([1, 3, 132, 0, last]) == [0x2b, 0x81, 0x04, 0x00, last]
  {
    hide Subidentifier, Subidentifiers, Oid;
    Large();
    Small(43);
    TwoArcs(0, last);
    Next(132, [0, last]);
    After(1, 3, [132] + [0, last]);
    assert [1, 3, 132, 0, last as nat] == [1, 3] + ([132] + [0, last]);
  }

  lemma ArcsEdwards(last: byte)
    requires last < 128
    ensures Oid([1, 3, 101, last]) == [0x2b, 0x65, last]
  {
    hide Subidentifier, Subidentifiers, Oid;
    Small(43);
    TwoArcs(101, last);
    After(1, 3, [101, last]);
    assert [1, 3, 101, last as nat] == [1, 3] + [101, last];
  }

  lemma NamesDiffer()
    ensures B("P-192") != B("P-256") && B("P-192") != B("P-384") && B("P-192") != B("P-521")
    ensures B("P-256") != B("P-384") && B("P-256") != B("P-521") && B("P-384") != B("P-521")
    ensures B("secp256k1") != B("P-192") && B("secp256k1") != B("P-256") && B("secp256k1") != B("P-384") &&
            B("secp256k1") != B("P-521")
    ensures B("Ed25519") != B("Ed448")
  {
    assert B("P-192")[2] == 49 && B("P-256")[2] == 50 && B("P-384")[2] == 51 && B("P-521")[2] == 53;
    assert |B("secp256k1")| == 9;
  }

  lemma CurveTable(c: Curve)
    ensures CurveRow(c.Name()).Some?
    ensures c.Oid() == Oid(CurveRow(c.Name()).value.0) && c.Size() == (CurveRow(c.Name()).value.1 + 7) / 8
    ensures CurveOfName(c.Name()) == if c == P192 then None else Some(c)
  {
    hide B, Oid;
    NamesDiffer();
    ArcsEc();
    ArcsCerticom(34);
    ArcsCerticom(35);
    ArcsCerticom(10);
  }

  /** The only names in the table are the curves' own. */
  lemma CurveNamed(name: bytes) returns (c: Curve)
    requires CurveRow(name).Some?
    ensures c.Name() == name
  {
    hide B;
    c := if name == B("P-192") then P192 else if name == B("P-256") then P256 else if name == B("P-384") then P384
         else if name == B("P-521") then P521 else Secp256k1;
  }

  /** Printing knows all of them but P-192. */
  lemma CurveOfNameIff(name: bytes)
    ensures CurveOfName(name).Some? <==> CurveRow(name).Some? && name != B("P-192")
    ensures CurveOfName(name).Some? ==> CurveOfName(name).value.Name() == name
  {
    hide B;
    NamesDiffer();
  }

  // ---------- members ----------

  /** A member that holds the base64url text of b. */
  predicate TextOf(jwk: Value, name: string, b: bytes) {
    jwk.GetStr(name) == Some(Text64(b))
  }

  ghost predicate NumberOf(jwk: Value, name: string, n: nat) {
    exists b :: TextOf(jwk, name, b) && FromBE(b) == n
  }

  lemma TextIs(jwk: Value, name: string, b: bytes)
    ensures TextOf(jwk, name, b) <==> Member(jwk, name) == Ok(b)
  {
    hide Base64.Encode, Base64.Decode;
    if jwk.GetStr(name).Some? {
      Base64.DecodeIff(Base64.URL_SAFE_NO_PAD, jwk.GetStr(name).value, b);
    }
  }

  lemma NumberIs(jwk: Value, name: string, n: nat)
    ensures NumberOf(jwk, name, n) <==> GetBigUint(jwk, name) == Ok(n)
  {
    hide Member, TextOf;
    if Member(jwk, name).Ok? {
      TextIs(jwk, name, Member(jwk, name).value);
    }
    if b :| TextOf(jwk, name, b) && FromBE(b) == n {
      TextIs(jwk, name, b);
    }
  }

  // ---------- printed keys ----------

  function Int(n: nat): bytes {
    Tlv(0x02, IntContent(n))
  }

  /** RSAPrivateKey (RFC 8017, appendix A.1.2) */
  function RsaKeyOctets(k: RsaCrt.Components): bytes {
    Tlv(0x30, Int(0) + Int(k.n) + Int(k.e) + Int(k.d) + Int(k.p) + Int(k.q) + Int(k.dp) + Int(k.dq) + Int(k.qi))
  }

  /** SubjectPublicKeyInfo of an RSAPublicKey (RFC 8017, appendix A.1.1) */
  function RsaSpkiOctets(n: nat, e: nat): bytes {
    Tlv(0x30, Tlv(0x30, Tlv(0x06, Oid(RSA_ARCS)) + [0x05, 0x00]) + Tlv(0x03, [0] + Tlv(0x30, Int(n) + Int(e))))
  }

  function PointOctets(xy: Option<(bytes, bytes)>): bytes {
    if xy == None then [] else Tlv(0xA1, Tlv(0x03, [0, 4] + xy.value.0 + xy.value.1))
  }

  /** PrivateKeyInfo of an ECPrivateKey (RFC 5915, section 3) that repeats its curve */
  function EcKeyOctets(curve: seq<nat>, d: bytes, xy: Option<(bytes, bytes)>): bytes
    requires |curve| >= 2
  {
    Tlv(0x30, Int(0) + Tlv(0x30, Tlv(0x06, Oid(EC_ARCS)) + Tlv(0x06, Oid(curve))) +
              Tlv(0x04, Tlv(0x30, Int(1) + Tlv(0x04, d) + Tlv(0xA0, Tlv(0x06, Oid(curve))) + PointOctets(xy))))
  }

  lemma RsaKeyOctetsIs(k: RsaCrt.Components)
    ensures RsaPrivateDer(k) == RsaKeyOctets(k)
  {
    hide Tlv, IntContent;
    Chain9(Int(0), Int(k.n), Int(k.e), Int(k.d), Int(k.p), Int(k.q), Int(k.dp), Int(k.dq), Int(k.qi));
  }

  lemma Chain9(a: bytes, b: bytes, c: bytes, d: bytes, e: bytes, f: bytes, g: bytes, h: bytes, i: bytes)
    ensures a + b + c + d + e + f + g + h + i == a + (b + (c + (d + (e + (f + (g + (h + i)))))))
  {
  }

  lemma RsaSpkiOctetsIs(n: nat, e: nat)
    ensures RsaSpki(n, e) == RsaSpkiOctets(n, e)
  {
    hide Tlv, IntContent;
    ArcsRsa();
  }

  lemma EcKeyOctetsIs(c: Curve, d: bytes, xy: Option<(bytes, bytes)>)
    ensures CurveRow(c.Name()).Some? && Pkcs8Ec(c, d, xy) == EcKeyOctets(CurveRow(c.Name()).value.0, d, xy)
  {
    hide B, Tlv, IntContent, Oid, CurveRow, Curve.Name, Curve.Oid;
    CurveTable(c);
    ArcsEc();
    PointOctetsIs(xy);
    var oid := Tlv(0x06, c.Oid());
    var sec1 := Int(1) + Tlv(0x04, d) + Tlv(0xA0, oid) + PublicPart(xy);
    assert sec1 == Int(1) + (Tlv(0x04, d) + (Tlv(0xA0, oid) + PublicPart(xy)));
    var algo, octets := Tlv(0x30, Tlv(0x06, OID_EC) + oid), Tlv(0x04, Tlv(0x30, sec1));
    assert Int(0) + algo + octets == Int(0) + (algo + octets);
  }

  lemma PointOctetsIs(xy: Option<(bytes, bytes)>)
    ensures PublicPart(xy) == PointOctets(xy)
  {
    hide Tlv;
    if xy.Some? {
      var x, y := xy.value.0, xy.value.1;
      assert [0] + ([0x04] + (x + y)) == [0, 4] + x + y;
    }
  }

  /** The eight members of a complete private key. */
  ghost predicate Given(jwk: Value, k: RsaCrt.Components) {
    NumberOf(jwk, "n", k.n) && NumberOf(jwk, "e", k.e) && NumberOf(jwk, "d", k.d) && NumberOf(jwk, "p", k.p) &&
    NumberOf(jwk, "q", k.q) && NumberOf(jwk, "dp", k.dp) && NumberOf(jwk, "dq", k.dq) && NumberOf(jwk, "qi", k.qi)
  }

  /** Three members and what follows from the recovered pair, larger factor first (RFC 8017, section 3.2). */
  ghost predicate Rebuilt(jwk: Value, k: RsaCrt.Components, rng: seq<seq<RsaMath.Fill>>) {
    NumberOf(jwk, "n", k.n) && NumberOf(jwk, "e", k.e) && NumberOf(jwk, "d", k.d) && k.n > 0 && k.d * k.e > 1 &&
    (RsaMath.Recovered(k.n, k.e, k.d, rng) == Some((k.p, k.q)) ||
     RsaMath.Recovered(k.n, k.e, k.d, rng) == Some((k.q, k.p))) &&
    k.p >= k.q > 1 && k.dp == k.d % (k.p - 1) && k.dq == k.d % (k.q - 1) && k.qi < k.p && k.q * k.qi % k.p == 1
  }

  ghost predicate PrintedRsa(jwk: Value, publicOnly: bool, rng: seq<seq<RsaMath.Fill>>, out: bytes) {
    if !publicOnly && jwk.Get("d").Some? then
      exists k :: (if jwk.Get("p").Some? then Given(jwk, k) else Rebuilt(jwk, k, rng)) && out == RsaKeyOctets(k)
    else exists n: nat, e: nat :: NumberOf(jwk, "n", n) && NumberOf(jwk, "e", e) && out == RsaSpkiOctets(n, e)
  }

  ghost predicate PrintedEcPrivate(jwk: Value, name: bytes, d: bytes, out: bytes)
    requires CurveRow(name).Some?
  {
    if (exists x :: TextOf(jwk, "x", x)) && (exists y :: TextOf(jwk, "y", y)) then
      exists x, y ::
        TextOf(jwk, "x", x) && TextOf(jwk, "y", y) && out == EcKeyOctets(CurveRow(name).value.0, d, Some((x, y)))
    else out == EcKeyOctets(CurveRow(name).value.0, d, None)
  }

  ghost predicate PrintedEc(jwk: Value, publicOnly: bool, out: bytes) {
    if !publicOnly && jwk.GetStr("d").Some? then
      jwk.GetStr("crv").Some? && CurveRow(jwk.GetStr("crv").value).Some? && jwk.GetStr("crv") != Some(B("P-192")) &&
      exists d :: TextOf(jwk, "d", d) && PrintedEcPrivate(jwk, jwk.GetStr("crv").value, d, out)
    else exists x, y :: TextOf(jwk, "x", x) && TextOf(jwk, "y", y) && out == [4] + x + y
  }

  /** What a key is printed as, by its type. */
  ghost predicate Printed(jwk: Value, publicOnly: bool, rng: seq<seq<RsaMath.Fill>>, out: bytes) {
    var kty := jwk.GetStr("kty");
    (kty == Some(B("oct")) && TextOf(jwk, "k", out)) ||
    (kty == Some(B("OKP")) && TextOf(jwk, if !publicOnly && jwk.GetStr("d").Some? then "d" else "x", out)) ||
    (kty == Some(B("RSA")) && PrintedRsa(jwk, publicOnly, rng, out)) ||
    (kty == Some(B("EC")) && PrintedEc(jwk, publicOnly, out))
  }

  /** `extract_key_bytes` returns exactly the octets described. */
  lemma KeyBytesIff(jwk: Value, publicOnly: bool, rng: seq<seq<RsaMath.Fill>>, out: bytes)
    requires Printable(jwk, publicOnly)
    ensures KeyBytes(jwk, publicOnly, rng) == Ok(out) <==> Printed(jwk, publicOnly, rng, out)
  {
    hide B, PrintedRsa, PrintedEc, TextOf, Member, RsaPrivateDer, RsaSpki, RsaComponents, Pkcs8Ec, CurveOfName,
         CurveRow, GetBigUint, Recoverable;
    KeyTypesDistinct();
    OctIsNotOkp();
    TextIs(jwk, "k", out);
    TextIs(jwk, "d", out);
    TextIs(jwk, "x", out);
    if jwk.GetStr("kty") == Some(B("RSA")) {
      RsaIff(jwk, publicOnly, rng, out);
    } else if jwk.GetStr("kty") == Some(B("EC")) {
      EcIff(jwk, publicOnly, rng, out);
    } else if jwk.GetStr("kty") == None {
      NoType();
    }
  }

  lemma OctIsNotOkp()
    ensures B("oct") != B("OKP")
  {
    assert B("oct")[0] == 111 && B("OKP")[0] == 79;
  }

  lemma NoType()
    ensures [] != B("oct") && [] != B("OKP") && [] != B("RSA") && [] != B("EC")
  {
    assert |B("oct")| == 3 && |B("OKP")| == 3 && |B("RSA")| == 3 && |B("EC")| == 2;
  }

  lemma RsaIff(jwk: Value, publicOnly: bool, rng: seq<seq<RsaMath.Fill>>, out: bytes)
    requires Printable(jwk, publicOnly) && jwk.GetStr("kty") == Some(B("RSA"))
    ensures KeyBytes(jwk, publicOnly, rng) == Ok(out) <==> PrintedRsa(jwk, publicOnly, rng, out)
  {
    hide B, Member, RsaPrivateDer, RsaSpki, RsaComponents, Recoverable, RsaKeyOctets, RsaSpkiOctets, Given, Rebuilt,
         NumberOf, GetBigUint;
    KeyTypesDistinct();
    forall name, n: nat
      ensures NumberOf(jwk, name, n) <==> GetBigUint(jwk, name) == Ok(n)
    {
      NumberIs(jwk, name, n);
    }
    if !publicOnly && jwk.Get("d").Some? {
      forall k
        ensures (if jwk.Get("p").Some? then Given(jwk, k) else Rebuilt(jwk, k, rng)) <==>
                RsaComponents(jwk, rng) == Ok(k)
        ensures RsaPrivateDer(k) == RsaKeyOctets(k)
      {
        RsaKeyOctetsIs(k);
        if jwk.Get("p").Some? {
          GivenIff(jwk, k, rng);
        } else {
          RebuiltIff(jwk, k, rng);
        }
      }
      if RsaComponents(jwk, rng).Ok? {
        ComponentsNeedNumbers(jwk, rng);
      }
    } else {
      forall n, e
        ensures RsaSpki(n, e) == RsaSpkiOctets(n, e)
      {
        RsaSpkiOctetsIs(n, e);
      }
    }
  }

  lemma ComponentsNeedNumbers(jwk: Value, rng: seq<seq<RsaMath.Fill>>)
    requires Recoverable(jwk) && RsaComponents(jwk, rng).Ok?
    ensures GetBigUint(jwk, "n").Ok? && GetBigUint(jwk, "e").Ok?
  {
    hide GetBigUint, Recoverable;
  }

  lemma GivenIff(jwk: Value, k: RsaCrt.Components, rng: seq<seq<RsaMath.Fill>>)
    requires Recoverable(jwk) && jwk.Get("p").Some?
    ensures Given(jwk, k) <==> RsaComponents(jwk, rng) == Ok(k)
  {
    hide NumberOf, GetBigUint, Recoverable;
    NumberIs(jwk, "n", k.n);
    NumberIs(jwk, "e", k.e);
    NumberIs(jwk, "d", k.d);
    NumberIs(jwk, "p", k.p);
    NumberIs(jwk, "q", k.q);
    NumberIs(jwk, "dp", k.dp);
    NumberIs(jwk, "dq", k.dq);
    NumberIs(jwk, "qi", k.qi);
  }

  lemma RebuiltIff(jwk: Value, k: RsaCrt.Components, rng: seq<seq<RsaMath.Fill>>)
    requires Recoverable(jwk) && jwk.Get("p") == None
    ensures Rebuilt(jwk, k, rng) <==> RsaComponents(jwk, rng) == Ok(k)
  {
    hide NumberOf, GetBigUint;
    NumberIs(jwk, "n", k.n);
    NumberIs(jwk, "e", k.e);
    NumberIs(jwk, "d", k.d);
    if k.n > 0 && k.d * k.e > 1 {
      RsaCrt.RebuiltIff(k, rng);
    }
  }

  lemma EcIff(jwk: Value, publicOnly: bool, rng: seq<seq<RsaMath.Fill>>, out: bytes)
    requires Printable(jwk, publicOnly) && jwk.GetStr("kty") == Some(B("EC"))
    ensures KeyBytes(jwk, publicOnly, rng) == Ok(out) <==> PrintedEc(jwk, publicOnly, out)
  {
    hide B, Member, Pkcs8Ec, TextOf, CurveOfName, CurveRow, EcKeyOctets;
    KeyTypesDistinct();
    forall name, b
      ensures TextOf(jwk, name, b) <==> Member(jwk, name) == Ok(b)
    {
      TextIs(jwk, name, b);
    }
    if jwk.GetStr("x") == None {
      NoMember(jwk, "x");
    }
    if jwk.GetStr("y") == None {
      NoMember(jwk, "y");
    }
    if jwk.GetStr("crv").Some? {
      CurveOfNameIff(jwk.GetStr("crv").value);
      if CurveOfName(jwk.GetStr("crv").value).Some? {
        forall d, xy
          ensures Pkcs8Ec(CurveOfName(jwk.GetStr("crv").value).value, d, xy)
               == EcKeyOctets(CurveRow(jwk.GetStr("crv").value).value.0, d, xy)
        {
          EcKeyOctetsIs(CurveOfName(jwk.GetStr("crv").value).value, d, xy);
        }
      }
    }
  }

  lemma NoMember(jwk: Value, name: string)
    requires jwk.GetStr(name) == None
    ensures Member(jwk, name).Err?
  {
  }

  /** `validate_ec_coordinates`: every coordinate an EC key has is as long as its curve's field. */
  lemma CoordinatesIff(jwk: Value)
    ensures ValidEcCoordinates(jwk)
       <==> (jwk.GetStr("kty") == Some(B("EC")) && jwk.GetStr("crv").Some? && jwk.GetStr("crv") != Some(B("P-192")) &&
             CurveRow(jwk.GetStr("crv").value).Some? ==>
             forall f :: f in {"x", "y", "d"} && jwk.GetStr(f).Some? ==>
               exists b :: TextOf(jwk, f, b) && |b| == (CurveRow(jwk.GetStr("crv").value).value.1 + 7) / 8)
  {
    hide B, Member, TextOf, CurveOfName, CurveRow;
    forall name, b
      ensures TextOf(jwk, name, b) <==> Member(jwk, name) == Ok(b)
    {
      TextIs(jwk, name, b);
    }
    var crv := if jwk.GetStr("crv").Some? then jwk.GetStr("crv").value else [];
    CurveOfNameIff(crv);
    NoCurve();
    if CurveOfName(crv).Some? {
      CurveTable(CurveOfName(crv).value);
      forall f | f in {"x", "y", "d"} && Member(jwk, f).Ok?
        ensures TextOf(jwk, f, Member(jwk, f).value)
      {
        TextIs(jwk, f, Member(jwk, f).value);
      }
    }
  }

  lemma NoCurve()
    ensures CurveRow([]) == None
  {
    assert |B("P-192")| == 5 && |B("P-256")| == 5 && |B("P-384")| == 5 && |B("P-521")| == 5 && |B("secp256k1")| == 9;
  }

  /** PrivateKeyInfo around any octets (RFC 5208, section 5), as `wrap_pkcs1_as_pkcs8` */
  lemma Pkcs8RsaIs(octets: bytes)
    ensures Pkcs8Rsa(octets)
         == Tlv(0x30, Int(0) + Tlv(0x30, Tlv(0x06, Oid(RSA_ARCS)) + [0x05, 0x00]) + Tlv(0x04, octets))
  {
    hide Tlv, IntContent, Oid;
    ArcsRsa();
    var algo, inner := Tlv(0x30, Tlv(0x06, OID_RSA) + [0x05, 0x00]), Tlv(0x04, octets);
    assert Int(0) + algo + inner == Int(0) + (algo + inner);
  }
}
