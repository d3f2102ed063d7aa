/**
 What the X.509 walkers show and find, stated over DER elements with literal tags and attribute types by their arcs:
 on well-formed names in RFC 4514 terms, and on any bytes by what one step of each loop does.
 */
module NameRelation {
  import opened Bytes
  import opened Der
  import opened X509
  import KeyRelation

  // ---------- attribute types (RFC 4519) ----------

  /** Arcs 2.5.4.n */
  function TypeOid(n: nat): bytes {
    KeyRelation.Oid([2, 5, 4, n])
  }

  function TypeName(oid: bytes): bytes {
    if oid == TypeOid(3) then B("CN")
    else if oid == TypeOid(6) then B("C")
    else if oid == TypeOid(10) then B("O")
    else if oid == TypeOid(11) then B("OU")
    else B("Unknown")
  }

  lemma TypeOidIs(n: byte)
    requires n < 128
    ensures TypeOid(n) == [0x55, 0x04, n]
  {
    KeyRelation.Small(85);
    KeyRelation.TwoArcs(4, n);
    assert [2, 5, 4, n as nat][2..] == [4, n];
  }

  lemma TypeNameIs(oid: bytes)
    ensures Label(oid) == TypeName(oid)
  {
    hide B, TypeOid;
    TypeOidIs(3);
    TypeOidIs(6);
    TypeOidIs(10);
    TypeOidIs(11);
  }

  // ---------- well-formed names ----------

  /** One line per attribute with readable text: its type, an equals sign, its text. */
  function Shown(attrs: seq<Attribute>, text: Directory): seq<bytes> {
    if attrs == [] then []
    else
      var t := text(attrs[0].tag, attrs[0].content);
      (if t == None then [] else [TypeName(attrs[0].oid) + B("=") + t.value]) + Shown(attrs[1..], text)
  }

  /** The last line first, with commas between. */
  function LastFirst(lines: seq<bytes>): bytes {
    if lines == [] then []
    else if |lines| == 1 then lines[0]
    else lines[|lines| - 1] + B(",") + LastFirst(lines[..|lines| - 1])
  }

  lemma {:induction false} ShownIs(attrs: seq<Attribute>, text: Directory)
    ensures Rendered(attrs, text) == Shown(attrs, text)
  {
    hide B, Label, TypeName;
    if attrs != [] {
      TypeNameIs(attrs[0].oid);
      ShownIs(attrs[1..], text);
    }
  }

  lemma {:induction false} ReversedConcat(a: seq<bytes>, b: seq<bytes>)
    ensures Reversed(a + b) == Reversed(b) + Reversed(a)
  {
    if a == [] {
      assert a + b == b;
    } else {
      ReversedConcat(a[1..], b);
      assert (a + b)[1..] == a[1..] + b;
    }
  }

  lemma {:induction false} LastFirstIs(lines: seq<bytes>)
    ensures Join(Reversed(lines), B(",")) == LastFirst(lines)
  {
    hide B;
    if lines != [] {
      var init, last := lines[..|lines| - 1], lines[|lines| - 1];
      assert lines == init + [last];
      assert Reversed([last]) == [last];
      ReversedConcat(init, [last]);
      LastFirstIs(init);
      assert ([last] + Reversed(init))[1..] == Reversed(init);
      ReversedEmpty(init);
    }
  }

  lemma {:induction false} ReversedEmpty(s: seq<bytes>)
    ensures |Reversed(s)| == |s|
  {
    if s != [] {
      ReversedEmpty(s[1..]);
    }
  }

  /** A well-formed name is shown with its last attribute first. */
  lemma NameShown(sets: seq<seq<Attribute>>, text: Directory)
    requires |NameDer(sets)| < 0x1_0000
    ensures NameText(Tlv(0x30, NameDer(sets)), text) == LastFirst(Shown(Flatten(sets), text))
  {
    hide B, NameText, Rendered;
    NameTextOfName(sets, text);
    ShownIs(Flatten(sets), text);
    LastFirstIs(Shown(Flatten(sets), text));
  }

  // ---------- any bytes, step by step ----------

  /** A whole SEQUENCE is walked, anything else has no parts. */
  lemma NameStart(content: bytes, text: Directory, name: bytes, rest: bytes)
    ensures Element(0x30, name, content, rest) ==> NameText(content, text) == LastFirst(NameParts(name, text))
    ensures (forall n, r :: !Element(0x30, n, content, r)) ==> NameText(content, text) == []
  {
    hide B, Element, ReadTagged, NameParts;
    ReadTaggedIff(0x30, name, content, rest);
    var r := ReadSequence(content);
    if r.result.Ok? {
      ReadTaggedIff(0x30, r.result.value, content, r.rest);
      LastFirstIs(NameParts(r.result.value, text));
    } else {
      LastFirstIs([]);
    }
  }

  /** One round over the SETs of a name: other elements and failed reads are passed over. */
  lemma NameStep(name: bytes, text: Directory, tag: byte, content: bytes, rest: bytes)
    ensures NameParts([], text) == []
    ensures Element(tag, content, name, rest) ==>
              NameParts(name, text) == (if tag == 0x31 then SetParts(content, text) else []) + NameParts(rest, text)
    ensures name != [] && (forall t, c, r :: !Element(t, c, name, r)) ==>
              NameParts(name, text) == NameParts(ReadTag(name).rest, text)
  {
    hide Element, ReadTag, SetParts;
    ReadTagIff(tag, content, name, rest);
    var r := ReadTag(name);
    if r.result.Ok? {
      ReadTagIff(r.result.value.0, r.result.value.1, name, r.rest);
    }
    NotEmpty(name);
  }

  lemma NotEmpty(input: bytes)
    ensures ReadTag(input).result.Ok? ==> input != []
  {
  }

  /** One round over the attributes of a SET: an attribute without readable type, value and text shows nothing. */
  lemma SetStep(rdn: bytes, text: Directory, attr: bytes, rest: bytes)
    ensures SetParts([], text) == []
    ensures Element(0x30, attr, rdn, rest) ==>
              SetParts(rdn, text) == AttributePart(attr, text) + SetParts(rest, text)
    ensures rdn != [] && (forall a, r :: !Element(0x30, a, rdn, r)) ==>
              SetParts(rdn, text) == SetParts(ReadTag(rdn).rest, text)
  {
    hide Element, ReadTag, AttributePart;
    ReadTaggedIff(0x30, attr, rdn, rest);
    var r := ReadSequence(rdn);
    if r.result.Ok? {
      ReadTaggedIff(0x30, r.result.value, rdn, r.rest);
    }
    NotEmpty(rdn);
  }

  lemma AttributeStep(attr: bytes, text: Directory, line: bytes)
    ensures AttributePart(attr, text) == [line]
       <==> exists oid, r, tag, value, r' ::
              Element(0x06, oid, attr, r) && Element(tag, value, r, r') && text(tag, value).Some? &&
              line == TypeName(oid) + B("=") + text(tag, value).value
    ensures |AttributePart(attr, text)| <= 1
  {
    hide B, Element, ReadTag, ReadTagged, Label, TypeName;
    var oid := ReadOid(attr);
    if oid.result.Ok? {
      ReadTaggedIff(0x06, oid.result.value, attr, oid.rest);
      TypeNameIs(oid.result.value);
      var val := ReadTag(oid.rest);
      if val.result.Ok? {
        ReadTagIff(val.result.value.0, val.result.value.1, oid.rest, val.rest);
      }
    }
    if o, r, tag, value, r' :|
        Element(0x06, o, attr, r) && Element(tag, value, r, r') && text(tag, value).Some? &&
        line == TypeName(o) + B("=") + text(tag, value).value {
      ReadTaggedIff(0x06, o, attr, r);
      ReadTagIff(tag, value, r, r');
    }
  }

  // ---------- the search ----------

  /** One round over the SETs of a subject; here a failed read ends the search. */
  lemma SubjectStep(subject: bytes, text: Directory, tag: byte, content: bytes, rest: bytes)
    ensures CommonName([], text) == Err(NoCommonName)
    ensures Element(tag, content, subject, rest) ==>
              var found := CommonNameInSet(content, text);
              CommonName(subject, text) == if tag == 0x31 && found.Some? then found.value else CommonName(rest, text)
    ensures subject != [] && (forall t, c, r :: !Element(t, c, subject, r)) ==> CommonName(subject, text).Err?
  {
    hide Element, ReadTag, CommonNameInSet;
    ReadTagIff(tag, content, subject, rest);
    var r := ReadTag(subject);
    if r.result.Ok? {
      ReadTagIff(r.result.value.0, r.result.value.1, subject, r.rest);
    }
    NotEmpty(subject);
  }

  /** One round over the attributes of a SET: the first of type 2.5.4.3 decides. */
  lemma SetSearchStep(rdn: bytes, text: Directory, attr: bytes, rest: bytes, after: bytes)
    ensures CommonNameInSet([], text) == None
    ensures Element(0x30, attr, rdn, rest) && Element(0x06, TypeOid(3), attr, after) ==>
              CommonNameInSet(rdn, text).Some?
    ensures Element(0x30, attr, rdn, rest) && (forall r :: !Element(0x06, TypeOid(3), attr, r)) ==>
              CommonNameInSet(rdn, text) == CommonNameInSet(rest, text)
    ensures rdn != [] && (forall a, r :: !Element(0x30, a, rdn, r)) ==>
              CommonNameInSet(rdn, text).Some? && CommonNameInSet(rdn, text).value.Err?
  {
    hide Element, ReadTag, ReadTagged, TypeOid;
    TypeOidIs(3);
    ReadTaggedIff(0x30, attr, rdn, rest);
    ReadTaggedIff(0x06, TypeOid(3), attr, after);
    var r := ReadSequence(rdn);
    if r.result.Ok? {
      ReadTaggedIff(0x30, r.result.value, rdn, r.rest);
      var oid := ReadOid(r.result.value);
      if oid.result == Ok(OID_COMMON_NAME) {
        ReadTaggedIff(0x06, TypeOid(3), r.result.value, oid.rest);
      }
    }
    NothingRead(rdn);
  }

  lemma NothingRead(input: bytes)
    ensures ReadTagged(0x30, input).result.Ok? ==> input != []
  {
  }

  /** And it gives the text of the value that follows the type. */
  lemma SetFound(rdn: bytes, text: Directory, attr: bytes, rest: bytes, after: bytes, name: bytes)
    requires Element(0x30, attr, rdn, rest) && Element(0x06, TypeOid(3), attr, after)
    ensures CommonNameInSet(rdn, text) == Some(Ok(name))
       <==> exists tag, value, r :: Element(tag, value, after, r) && text(tag, value) == Some(name)
  {
    hide Element, ReadTag, ReadTagged, TypeOid;
    TypeOidIs(3);
    ReadTaggedIff(0x30, attr, rdn, rest);
    ReadTaggedIff(0x06, TypeOid(3), attr, after);
    NothingRead(rdn);
    var val := ReadTag(after);
    if val.result.Ok? {
      ReadTagIff(val.result.value.0, val.result.value.1, after, val.rest);
    }
    if tag, value, r :| Element(tag, value, after, r) && text(tag, value) == Some(name) {
      ReadTagIff(tag, value, after, r);
    }
  }

  /** A certificate up to its subject; t1 to t5 are what is left after each field. */
  datatype CertParts = CertParts(cert: bytes, r0: bytes, tbs: bytes, r1: bytes, version: bytes, t1: bytes,
                                 serial: bytes, t2: bytes, algorithm: bytes, t3: bytes, issuer: bytes, t4: bytes,
                                 validity: bytes, t5: bytes, subject: bytes, r2: bytes)

  ghost predicate IsCertificate(der: bytes, m: CertParts) {
    Element(0x30, m.cert, der, m.r0) && Element(0x30, m.tbs, m.cert, m.r1) &&
    (if m.tbs != [] && m.tbs[0] == 0xA0 then Element(0xA0, m.version, m.tbs, m.t1) else m.t1 == m.tbs) &&
    Element(0x02, m.serial, m.t1, m.t2) && Element(0x30, m.algorithm, m.t2, m.t3) &&
    Element(0x30, m.issuer, m.t3, m.t4) && Element(0x30, m.validity, m.t4, m.t5) &&
    Element(0x30, m.subject, m.t5, m.r2)
  }

  lemma VersionIs(tbs: bytes, version: bytes, rest: bytes)
    ensures (if tbs != [] && tbs[0] == 0xA0 then Element(0xA0, version, tbs, rest) else rest == tbs) ==>
              ReadOptional(0xA0, tbs).result.Ok? && ReadOptional(0xA0, tbs).rest == rest
    ensures ReadOptional(0xA0, tbs).result.Ok? && ReadOptional(0xA0, tbs).rest == rest ==>
              if tbs != [] && tbs[0] == 0xA0 then
                ReadTag(tbs).result.Ok? && Element(0xA0, ReadTag(tbs).result.value.1, tbs, rest)
              else rest == tbs
  {
    hide Element;
    ReadTagIff(0xA0, version, tbs, rest);
    if tbs != [] && tbs[0] == 0xA0 && ReadTag(tbs).result.Ok? {
      ReadConfined(tbs);
      ReadTagIff(0xA0, ReadTag(tbs).result.value.1, tbs, ReadTag(tbs).rest);
    }
  }

  /** `get_x509_subject_cn` answers exactly for certificates of this shape whose subject has an answer. */
  lemma CertificateIff(der: bytes, text: Directory, name: bytes)
    ensures SubjectCommonName(der, text) == Ok(name)
       <==> exists m :: IsCertificate(der, m) && CommonName(m.subject, text) == Ok(name)
  {
    if SubjectCommonName(der, text) == Ok(name) {
      var m := CertificateRead(der, text);
    }
    if m :| IsCertificate(der, m) && CommonName(m.subject, text) == Ok(name) {
      CertificateSkipped(der, m, text);
    }
  }

  lemma CertificateSkipped(der: bytes, m: CertParts, text: Directory)
    requires IsCertificate(der, m)
    ensures SubjectCommonName(der, text) == CommonName(m.subject, text)
  {
    hide Element, ReadTagged, ReadOptional, CommonName, Strip;
    ReadTaggedIff(0x30, m.cert, der, m.r0);
    ReadTaggedIff(0x30, m.tbs, m.cert, m.r1);
    VersionIs(m.tbs, m.version, m.t1);
    ReadTaggedIff(0x02, m.serial, m.t1, m.t2);
    ReadTaggedIff(0x30, m.algorithm, m.t2, m.t3);
    ReadTaggedIff(0x30, m.issuer, m.t3, m.t4);
    ReadTaggedIff(0x30, m.validity, m.t4, m.t5);
    ReadTaggedIff(0x30, m.subject, m.t5, m.r2);
  }

  lemma CertificateRead(der: bytes, text: Directory) returns (m: CertParts)
    requires SubjectCommonName(der, text).Ok?
    ensures IsCertificate(der, m) && SubjectCommonName(der, text) == CommonName(m.subject, text)
  {
    hide Element, ReadTagged, ReadOptional, ReadTag, CommonName, Strip;
    var cert := ReadTagged(0x30, der);
    var tbs := ReadTagged(0x30, cert.result.value);
    var t1 := ReadOptional(0xA0, tbs.result.value).rest;
    var serial := ReadTagged(0x02, t1);
    var algorithm := ReadTagged(0x30, serial.rest);
    var issuer := ReadTagged(0x30, algorithm.rest);
    var validity := ReadTagged(0x30, issuer.rest);
    var subject := ReadTagged(0x30, validity.rest);
    var v := ReadTag(tbs.result.value).result;
    m := CertParts(cert.result.value, cert.rest, tbs.result.value, tbs.rest, if v.Ok? then v.value.1 else [], t1,
                   serial.result.value, serial.rest, algorithm.result.value, algorithm.rest, issuer.result.value,
                   issuer.rest, validity.result.value, validity.rest, subject.result.value, subject.rest);
    ReadTaggedIff(0x30, m.cert, der, m.r0);
    ReadTaggedIff(0x30, m.tbs, m.cert, m.r1);
    VersionIs(m.tbs, m.version, m.t1);
    ReadTaggedIff(0x02, m.serial, m.t1, m.t2);
    ReadTaggedIff(0x30, m.algorithm, m.t2, m.t3);
    ReadTaggedIff(0x30, m.issuer, m.t3, m.t4);
    ReadTaggedIff(0x30, m.validity, m.t4, m.t5);
    ReadTaggedIff(0x30, m.subject, m.t5, m.r2);
  }
}
