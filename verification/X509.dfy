/** The X.509 name walkers of src/crypto_parsing.rs: nested loops driven by the reader's progress. */
module X509 {
  import opened Bytes
  import opened Der
  import DerCode

  const OID_COMMON_NAME: bytes := [0x55, 0x04, 0x03]
  const OID_COUNTRY: bytes := [0x55, 0x04, 0x06]
  const OID_ORG: bytes := [0x55, 0x04, 0x0a]
  const OID_ORG_UNIT: bytes := [0x55, 0x04, 0x0b]

  /** `decode_directory_string`: the text of a string value, or None if it is not valid UTF-8 or UTF-16. */
  type Directory = (byte, bytes) -> Option<bytes>

  datatype X509Error = Malformed(cause: DerError) | BadText | NoCommonName

  // ---------- what the walkers compute ----------

  function Label(oid: bytes): bytes {
    if oid == OID_COMMON_NAME then B("CN")
    else if oid == OID_COUNTRY then B("C")
    else if oid == OID_ORG then B("O")
    else if oid == OID_ORG_UNIT then B("OU")
    else B("Unknown")
  }

  /** The rendering of one attribute, or nothing if any part of it cannot be read. */
  function AttributePart(attr: bytes, text: Directory): seq<bytes> {
    var oid := ReadOid(attr);
    var val := ReadTag(oid.rest).result;
    if oid.result.Err? || val.Err? || text(val.value.0, val.value.1) == None then []
    else [Label(oid.result.value) + B("=") + text(val.value.0, val.value.1).value]
  }

  function SetParts(rdn: bytes, text: Directory): seq<bytes>
    decreases |rdn|
  {
    if rdn == [] then []
    else
      TaggedConfined(0x30, rdn);
      var r := ReadSequence(rdn);
      (if r.result.Ok? then AttributePart(r.result.value, text) else []) + SetParts(r.rest, text)
  }

  function NameParts(name: bytes, text: Directory): seq<bytes>
    decreases |name|
  {
    if name == [] then []
    else
      ReadConfined(name);
      var r := ReadTag(name);
      (if r.result.Ok? && r.result.value.0 == 0x31 then SetParts(r.result.value.1, text) else []) +
      NameParts(r.rest, text)
  }

  function Reversed(parts: seq<bytes>): seq<bytes> {
    if parts == [] then [] else Reversed(parts[1..]) + [parts[0]]
  }

  function Join(parts: seq<bytes>, sep: bytes): bytes {
    if parts == [] then []
    else if |parts| == 1 then parts[0]
    else parts[0] + sep + Join(parts[1..], sep)
  }

  function NameText(content: bytes, text: Directory): bytes {
    var r := ReadSequence(content).result;
    Join(Reversed(if r.Ok? then NameParts(r.value, text) else []), B(","))
  }

  /** The search inside one SET: None if no attribute of it is a common name. */
  function CommonNameInSet(rdn: bytes, text: Directory): Option<Result<bytes, X509Error>>
    decreases |rdn|
  {
    if rdn == [] then None
    else
      TaggedConfined(0x30, rdn);
      var r := ReadSequence(rdn);
      if r.result.Err? then Some(Err(Malformed(r.result.error)))
      else
        var oid := ReadOid(r.result.value);
        if oid.result == Ok(OID_COMMON_NAME) then
          var val := ReadTag(oid.rest).result;
          Some(if val.Err? then Err(Malformed(val.error))
               else if text(val.value.0, val.value.1) == None then Err(BadText)
               else Ok(text(val.value.0, val.value.1).value))
        else CommonNameInSet(r.rest, text)
  }

  function CommonName(subject: bytes, text: Directory): Result<bytes, X509Error>
    decreases |subject|
  {
    if subject == [] then Err(NoCommonName)
    else
      ReadConfined(subject);
      var r := ReadTag(subject);
      if r.result.Err? then Err(Malformed(r.result.error))
      else
        var found := if r.result.value.0 == 0x31 then CommonNameInSet(r.result.value.1, text) else None;
        if found.Some? then found.value else CommonName(r.rest, text)
  }

  function Skip<T>(r: Read<T>): Result<bytes, X509Error> {
    if r.result.Err? then Err(Malformed(r.result.error)) else Ok(r.rest)
  }

  function Inside(r: Read<bytes>): Result<bytes, X509Error> {
    if r.result.Err? then Err(Malformed(r.result.error)) else Ok(r.result.value)
  }

  function SubjectCommonName(der: bytes, text: Directory): Result<bytes, X509Error> {
    var cert :- Inside(ReadSequence(der));
    var tbs :- Inside(ReadSequence(cert));
    var t1 :- Skip(ReadOptional(0xA0, tbs));
    var t2 :- Skip(ReadInteger(t1));
    var t3 :- Skip(ReadSequence(t2));
    var t4 :- Skip(ReadSequence(t3));
    var t5 :- Skip(ReadSequence(t4));
    var subject :- Inside(ReadSequence(t5));
    CommonName(subject, text)
  }

  // ---------- the loops ----------

  lemma Assoc(a: seq<bytes>, b: seq<bytes>, c: seq<bytes>)
    ensures (a + b) + c == a + (b + c)
  {
  }

  method ParseX509Name(content: bytes, text: Directory) returns (name: bytes)
    ensures name == NameText(content, text)
  {
    hide ReadTag, ReadSequence, SetParts;
    var parts: seq<bytes> := [];
    var outer := new DerCode.DerReader(content);
    var s := outer.ReadSequence();
    if s.Ok? {
      parts := NameLoop(s.value, text);
    }
    name := Join(Reversed(parts), B(","));
  }

  /** The loop over the SETs of a name. */
  method NameLoop(reader: DerCode.DerReader, text: Directory) returns (parts: seq<bytes>)
    modifies reader
    ensures parts == NameParts(old(reader.input), text)
  {
    hide ReadTag, SetParts;
    parts := [];
    while reader.input != []
      invariant parts + NameParts(reader.input, text) == NameParts(old(reader.input), text)
      decreases |reader.input|
    {
      ReadConfined(reader.input);
      ghost var before := reader.input;
      var t := reader.ReadTag();
      var found: seq<bytes> := [];
      if t.Ok? && t.value.0 == 0x31 {
        found := SetLoop(t.value.1, text);
      }
      assert NameParts(before, text) == found + NameParts(reader.input, text);
      Assoc(parts, found, NameParts(reader.input, text));
      parts := parts + found;
    }
  }

  /** The inner loop over the attributes of one SET. */
  method SetLoop(rdn: bytes, text: Directory) returns (parts: seq<bytes>)
    ensures parts == SetParts(rdn, text)
  {
    hide ReadSequence, AttributePart;
    parts := [];
    var reader := new DerCode.DerReader(rdn);
    while reader.input != []
      invariant parts + SetParts(reader.input, text) == SetParts(rdn, text)
      decreases |reader.input|
    {
      SequenceConfined(reader.input);
      ghost var before := reader.input;
      var s := reader.ReadSequence();
      var found: seq<bytes> := [];
      if s.Ok? {
        found := ReadAttribute(s.value, text);
      }
      assert SetParts(before, text) == found + SetParts(reader.input, text);
      Assoc(parts, found, SetParts(reader.input, text));
      parts := parts + found;
    }
  }

  method ReadAttribute(attr: DerCode.DerReader, text: Directory) returns (parts: seq<bytes>)
    modifies attr
    ensures parts == AttributePart(old(attr.input), text)
  {
    hide ReadOid, ReadTag, Label, B;
    parts := [];
    var oid := attr.ReadOid();
    if oid.Ok? {
      var kind := Label(oid.value);
      var val := attr.ReadTag();
      if val.Ok? {
        var t := text(val.value.0, val.value.1);
        if t.Some? {
          parts := parts + [kind + B("=") + t.value];
        }
      }
    }
  }

  method GetX509SubjectCn(der: bytes, text: Directory) returns (res: Result<bytes, X509Error>)
    ensures res == SubjectCommonName(der, text)
  {
    hide ReadSequence, ReadInteger, ReadOptional, CommonName;
    var outer := new DerCode.DerReader(der);
    var cert := outer.ReadSequence();
    if cert.Err? { return Err(Malformed(cert.error)); }
    var body := cert.value.ReadSequence();
    if body.Err? { return Err(Malformed(body.error)); }
    var tbs := body.value;
    var version := tbs.ReadOptionalExplicit(0);
    if version.Err? { return Err(Malformed(version.error)); }
    var serial := tbs.ReadIntegerBytes();
    if serial.Err? { return Err(Malformed(serial.error)); }
    var algorithm := tbs.ReadSequence();
    if algorithm.Err? { return Err(Malformed(algorithm.error)); }
    var issuer := tbs.ReadSequence();
    if issuer.Err? { return Err(Malformed(issuer.error)); }
    var validity := tbs.ReadSequence();
    if validity.Err? { return Err(Malformed(validity.error)); }
    var subject := tbs.ReadSequence();
    if subject.Err? { return Err(Malformed(subject.error)); }
    res := SubjectLoop(subject.value, text);
  }

  method SubjectLoop(subject: DerCode.DerReader, text: Directory) returns (res: Result<bytes, X509Error>)
    modifies subject
    ensures res == CommonName(old(subject.input), text)
  {
    ghost var answer := CommonName(subject.input, text);
    while subject.input != []
      invariant CommonName(subject.input, text) == answer
      decreases |subject.input|
    {
      ReadConfined(subject.input);
      var t := subject.ReadTag();
      if t.Err? { return Err(Malformed(t.error)); }
      if t.value.0 != 0x31 {
        continue;
      }
      ghost var rest := subject.input;
      var rdn := new DerCode.DerReader(t.value.1);
      while rdn.input != []
        invariant CommonNameInSet(rdn.input, text) == CommonNameInSet(t.value.1, text)
        invariant subject.input == rest
        decreases |rdn.input|
      {
        TaggedConfined(0x30, rdn.input);
        var attr := rdn.ReadSequence();
        if attr.Err? { return Err(Malformed(attr.error)); }
        var oid := attr.value.ReadOid();
        if oid.Ok? && oid.value == OID_COMMON_NAME {
          var val := attr.value.ReadTag();
          if val.Err? { return Err(Malformed(val.error)); }
          var s := text(val.value.0, val.value.1);
          if s == None { return Err(BadText); }
          return Ok(s.value);
        }
      }
    }
    return Err(NoCommonName);
  }

  // ---------- well-formed names ----------

  datatype Attribute = Attribute(oid: bytes, tag: byte, content: bytes) {
    function Der(): bytes {
      Tlv(0x30, Tlv(0x06, oid) + Tlv(tag, content))
    }
  }

  function AttributesDer(attrs: seq<Attribute>): bytes {
    if attrs == [] then [] else attrs[0].Der() + AttributesDer(attrs[1..])
  }

  /** A Name is a SEQUENCE of SETs of attributes. */
  function NameDer(sets: seq<seq<Attribute>>): bytes {
    if sets == [] then [] else Tlv(0x31, AttributesDer(sets[0])) + NameDer(sets[1..])
  }

  function Flatten(sets: seq<seq<Attribute>>): seq<Attribute> {
    if sets == [] then [] else sets[0] + Flatten(sets[1..])
  }

  function RenderedOne(a: Attribute, text: Directory): seq<bytes> {
    var t := text(a.tag, a.content);
    if t == None then [] else [Label(a.oid) + B("=") + t.value]
  }

  function Rendered(attrs: seq<Attribute>, text: Directory): seq<bytes> {
    if attrs == [] then [] else RenderedOne(attrs[0], text) + Rendered(attrs[1..], text)
  }

  lemma AttributeReads(a: Attribute, rest: bytes)
    requires |a.Der()| < 0x1_0000
    ensures var body := Tlv(0x06, a.oid) + Tlv(a.tag, a.content);
            ReadSequence(a.Der() + rest) == Read(Ok(body), rest) &&
            ReadOid(body) == Read(Ok(a.oid), Tlv(a.tag, a.content)) &&
            ReadTag(Tlv(a.tag, a.content)).result == Ok((a.tag, a.content))
    ensures a.Der() != []
  {
    var body := Tlv(0x06, a.oid) + Tlv(a.tag, a.content);
    TaggedReadsBack(0x30, body, rest);
    TaggedReadsBack(0x06, a.oid, Tlv(a.tag, a.content));
    ReadsBack(a.tag, a.content, []);
    assert Tlv(a.tag, a.content) + [] == Tlv(a.tag, a.content);
  }

  lemma {:induction false} SetRendered(attrs: seq<Attribute>, text: Directory)
    requires |AttributesDer(attrs)| < 0x1_0000
    ensures SetParts(AttributesDer(attrs), text) == Rendered(attrs, text)
  {
    hide ReadSequence, ReadOid, ReadTag, Tlv;
    if attrs != [] {
      AttributeReads(attrs[0], AttributesDer(attrs[1..]));
      SetRendered(attrs[1..], text);
    }
  }

  lemma {:induction false} RenderedConcat(a: seq<Attribute>, b: seq<Attribute>, text: Directory)
    ensures Rendered(a + b, text) == Rendered(a, text) + Rendered(b, text)
  {
    if a == [] {
      assert a + b == b;
    } else {
      hide RenderedOne;
      RenderedConcat(a[1..], b, text);
      assert (a + b)[1..] == a[1..] + b;
      Assoc(RenderedOne(a[0], text), Rendered(a[1..], text), Rendered(b, text));
    }
  }

  lemma SetReads(attrs: seq<Attribute>, rest: bytes)
    requires |Tlv(0x31, AttributesDer(attrs))| < 0x1_0000
    ensures ReadTag(Tlv(0x31, AttributesDer(attrs)) + rest) == Read(Ok((0x31, AttributesDer(attrs))), rest)
    ensures |AttributesDer(attrs)| < 0x1_0000 && Tlv(0x31, AttributesDer(attrs)) != []
  {
    ReadsBack(0x31, AttributesDer(attrs), rest);
  }

  /** Every attribute of every set is rendered, in order. */
  lemma {:induction false} NameRendered(sets: seq<seq<Attribute>>, text: Directory)
    requires |NameDer(sets)| < 0x1_0000
    ensures NameParts(NameDer(sets), text) == Rendered(Flatten(sets), text)
  {
    hide ReadTag, Tlv, AttributesDer;
    if sets != [] {
      SetReads(sets[0], NameDer(sets[1..]));
      SetRendered(sets[0], text);
      NameRendered(sets[1..], text);
      RenderedConcat(sets[0], Flatten(sets[1..]), text);
    }
  }

  /** A well-formed name is shown most specific attribute first, comma separated (RFC 4514). */
  lemma NameTextOfName(sets: seq<seq<Attribute>>, text: Directory)
    requires |NameDer(sets)| < 0x1_0000
    ensures NameText(Tlv(0x30, NameDer(sets)), text) == Join(Reversed(Rendered(Flatten(sets), text)), B(","))
  {
    TaggedReadsBack(0x30, NameDer(sets), []);
    assert Tlv(0x30, NameDer(sets)) + [] == Tlv(0x30, NameDer(sets));
    NameRendered(sets, text);
  }

  /** The first common name among the attributes. */
  function FirstCommonName(attrs: seq<Attribute>): Option<Attribute> {
    if attrs == [] then None
    else if attrs[0].oid == OID_COMMON_NAME then Some(attrs[0])
    else FirstCommonName(attrs[1..])
  }

  function Decoded(a: Option<Attribute>, text: Directory): Result<bytes, X509Error> {
    if a == None then Err(NoCommonName)
    else if text(a.value.tag, a.value.content) == None then Err(BadText)
    else Ok(text(a.value.tag, a.value.content).value)
  }

  lemma {:induction false} SetSearch(attrs: seq<Attribute>, text: Directory)
    requires |AttributesDer(attrs)| < 0x1_0000
    ensures CommonNameInSet(AttributesDer(attrs), text)
         == if FirstCommonName(attrs) == None then None else Some(Decoded(FirstCommonName(attrs), text))
  {
    hide ReadSequence, ReadOid, ReadTag, Tlv;
    if attrs != [] {
      AttributeReads(attrs[0], AttributesDer(attrs[1..]));
      SetSearch(attrs[1..], text);
    }
  }

  lemma {:induction false} FirstInConcat(a: seq<Attribute>, b: seq<Attribute>)
    ensures FirstCommonName(a + b) == if FirstCommonName(a).Some? then FirstCommonName(a) else FirstCommonName(b)
  {
    if a == [] {
      assert a + b == b;
    } else {
      FirstInConcat(a[1..], b);
      assert (a + b)[1..] == a[1..] + b;
    }
  }

  /** On a well-formed subject the walker returns the text of its first common name. */
  lemma {:induction false} CommonNameOfName(sets: seq<seq<Attribute>>, text: Directory)
    requires |NameDer(sets)| < 0x1_0000
    ensures CommonName(NameDer(sets), text) == Decoded(FirstCommonName(Flatten(sets)), text)
  {
    hide ReadTag, Tlv, AttributesDer;
    if sets != [] {
      SetReads(sets[0], NameDer(sets[1..]));
      SetSearch(sets[0], text);
      FirstInConcat(sets[0], Flatten(sets[1..]));
      CommonNameOfName(sets[1..], text);
    }
  }

  // ---------- certificates ----------

  /** A TBSCertificate up to its subject, given the contents of its fields, and whatever follows the subject. */
  datatype Tbs = Tbs(version: Option<bytes>, serial: bytes, algorithm: bytes, issuer: bytes, validity: bytes,
                     subject: seq<seq<Attribute>>, rest: bytes)
  {
    function AfterVersion(): bytes {
      Tlv(0x02, serial) + (Tlv(0x30, algorithm) + (Tlv(0x30, issuer) + (Tlv(0x30, validity) +
        (Tlv(0x30, NameDer(subject)) + rest))))
    }

    function Content(): bytes {
      (if version == None then [] else Tlv(0xA0, version.value)) + AfterVersion()
    }
  }

  /** A certificate: the TBSCertificate, then the signature algorithm and value. */
  function CertificateDer(tbs: Tbs, signature: bytes): bytes {
    Tlv(0x30, Tlv(0x30, tbs.Content()) + signature)
  }

  lemma TlvLonger(tag: byte, content: bytes, rest: bytes)
    ensures |Tlv(tag, content) + rest| > |content| + |rest| && (Tlv(tag, content) + rest)[0] == tag
  {
  }

  lemma VersionSkipped(tbs: Tbs)
    requires |tbs.Content()| < 0x1_0000
    ensures ReadOptional(0xA0, tbs.Content()).result.Ok? && ReadOptional(0xA0, tbs.Content()).rest == tbs.AfterVersion()
    ensures |tbs.AfterVersion()| < 0x1_0000
  {
    hide ReadTag, Tlv, NameDer;
    var after := tbs.AfterVersion();
    TlvLonger(0x02, tbs.serial, after[|Tlv(0x02, tbs.serial)|..]);
    assert after == Tlv(0x02, tbs.serial) + after[|Tlv(0x02, tbs.serial)|..];
    if tbs.version == None {
      assert tbs.Content() == after;
    } else {
      TlvLonger(0xA0, tbs.version.value, after);
      ReadsBack(0xA0, tbs.version.value, after);
    }
  }

  /** The common name of a well-formed certificate is the text of the first common name of its subject. */
  lemma CommonNameOfCertificate(tbs: Tbs, signature: bytes, trailing: bytes, text: Directory)
    requires |CertificateDer(tbs, signature)| < 0x1_0000
    ensures SubjectCommonName(CertificateDer(tbs, signature) + trailing, text)
         == Decoded(FirstCommonName(Flatten(tbs.subject)), text)
  {
    hide ReadTag, ReadOptional, Tlv, NameDer, CommonName, Decoded, Strip;
    var cert := Tlv(0x30, tbs.Content()) + signature;
    var s4 := Tlv(0x30, NameDer(tbs.subject)) + tbs.rest;
    var s3 := Tlv(0x30, tbs.validity) + s4;
    var s2 := Tlv(0x30, tbs.issuer) + s3;
    var s1 := Tlv(0x30, tbs.algorithm) + s2;
    TlvLonger(0x30, cert, []);
    assert CertificateDer(tbs, signature) + [] == CertificateDer(tbs, signature);
    TlvLonger(0x30, tbs.Content(), signature);
    VersionSkipped(tbs);
    TlvLonger(0x02, tbs.serial, s1);
    TlvLonger(0x30, tbs.algorithm, s2);
    TlvLonger(0x30, tbs.issuer, s3);
    TlvLonger(0x30, tbs.validity, s4);
    TlvLonger(0x30, NameDer(tbs.subject), tbs.rest);
    TaggedReadsBack(0x30, cert, trailing);
    TaggedReadsBack(0x30, tbs.Content(), signature);
    TaggedReadsBack(0x02, tbs.serial, s1);
    TaggedReadsBack(0x30, tbs.algorithm, s2);
    TaggedReadsBack(0x30, tbs.issuer, s3);
    TaggedReadsBack(0x30, tbs.validity, s4);
    TaggedReadsBack(0x30, NameDer(tbs.subject), tbs.rest);
    CommonNameOfName(tbs.subject, text);
  }
}
