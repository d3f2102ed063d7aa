/** `pem_to_jwk` (src/key_utils.rs) from text to key: SSH lines, armour, labels and the parsers in their order. */
module PemKeys {
  import opened Bytes
  import opened Der
  import opened Json
  import opened KeyDispatch
  import opened KeyFormats
  import opened KeyRoundTrip
  import opened Pem
  import opened Ssh
  import Base64
  import RsaCrt
  import RsaMath

  // ---------- the function ----------

  datatype PemKeyError = InvalidUtf8 | FromSsh(ssh: SshError) | FromArmour(armour: PemError) | UnknownKey

  predicate PublicLabel(s: bytes) {
    Contains(s, B("BEGIN PUBLIC KEY")) || Contains(s, B("BEGIN RSA PUBLIC KEY"))
  }

  predicate PrivateLabel(s: bytes) {
    Contains(s, B("BEGIN RSA PRIVATE KEY")) || Contains(s, B("BEGIN PRIVATE KEY")) ||
    Contains(s, B("BEGIN EC PRIVATE KEY"))
  }

  predicate SshLine(trimmed: bytes) {
    B("ssh-") <= trimmed || B("ecdsa-") <= trimmed
  }

  function FromDispatch(r: Result<Value, KeyError>): Outcome<Value, PemKeyError> {
    if r.Ok? then Done(r.value) else Failed(UnknownKey)
  }

  /** The part after the SSH case. */
  function ArmouredToJwk(s: bytes, ed25519: Ed25519): Outcome<Value, PemKeyError> {
    var der := PemDer(s);
    if der.Err? then Failed(FromArmour(der.error))
    else FromDispatch(Dispatch(PublicLabel(s), PrivateLabel(s), der.value, ed25519))
  }

  /** `pem_to_jwk`; what a converted SSH key is handed back to is not an SSH line again. */
  function PemToJwk(s: bytes, utf8: bytes -> bool, ed25519: Ed25519): Outcome<Value, PemKeyError>
    decreases if SshLine(Trim(s)) then 1 else 0
  {
    if !utf8(s) then Failed(InvalidUtf8)
    else if SshLine(Trim(s)) then
      match SshToPem(Trim(s), utf8)
      case Panics => Panics
      case Failed(e) => Failed(FromSsh(e))
      case Done(pem) =>
        ConvertedIsArmoured(Trim(s), utf8);
        PemToJwk(pem, utf8, ed25519)
    else ArmouredToJwk(s, ed25519)
  }

  lemma NotSshLine(tag: bytes, data: bytes)
    ensures !SshLine(Trim(PemText(tag, data)))
  {
    hide Header, Footer, Body, Trim;
    var t := Header(tag) + [LF] + (Body(data) + Footer(tag));
    HeaderFooter(tag);
    assert PemText(tag, data) == t + [LF];
    TrimFramed(t);
    SshLetters(t);
  }

  lemma SshLetters(t: bytes)
    requires t != [] && t[0] == DASH
    ensures !SshLine(t)
  {
    assert B("ssh-")[0] == 115 && B("ecdsa-")[0] == 101;
  }

  lemma ConvertedIsArmoured(line: bytes, utf8: bytes -> bool)
    ensures SshToPem(line, utf8).Done? ==> !SshLine(Trim(SshToPem(line, utf8).value))
  {
    hide PemText, SpkiOkp, SpkiEc, RsaPublicDer, Trim, SshLine, Words, ReadString, Base64.Decode, B, SshCurve;
    forall tag, data
      ensures !SshLine(Trim(PemText(tag, data)))
    {
      NotSshLine(tag, data);
    }
  }

  // ---------- the labels of a printed text ----------

  /** A tag without line feeds and dashes, in which no space follows an N. */
  predicate PlainTag(tag: bytes) {
    forall i :: 0 <= i < |tag| ==> tag[i] != LF && tag[i] != DASH && (tag[i] == 32 && i > 0 ==> tag[i - 1] != 78)
  }

  const BEGIN_SPACE: bytes := B("BEGIN ")

  lemma BeginLetters()
    ensures |BEGIN_SPACE| == 6 && BEGIN_SPACE[4] == 78 && BEGIN_SPACE[5] == 32
  {
  }

  /** A symbol or line feed: what a printed body is made of. */
  lemma {:induction false} TerminatedSymbols(lines: seq<bytes>)
    requires forall i :: 0 <= i < |lines| ==> Symbols(lines[i])
    ensures forall i :: 0 <= i < |Terminated(lines)| ==> Terminated(lines)[i] != 32 && Terminated(lines)[i] < 128
  {
    if lines != [] {
      TerminatedSymbols(lines[1..]);
      SymbolsPlain(lines[0]);
      SymbolsAscii(lines[0]);
    }
  }

  lemma SymbolsAscii(s: bytes)
    requires Symbols(s)
    ensures forall i :: 0 <= i < |s| ==> s[i] < 128
  {
  }

  lemma BodyHasNoSpace(data: bytes)
    ensures forall i :: 0 <= i < |Body(data)| ==> Body(data)[i] != 32 && Body(data)[i] < 128
  {
    hide Base64.Encode, Symbols;
    EncodedSymbols(data);
    ChunksOfSymbols(Base64.Encode(Base64.STANDARD, data));
    TerminatedSymbols(Chunks(Base64.Encode(Base64.STANDARD, data)));
  }

  lemma HeaderSpaces(tag: bytes, x: nat)
    requires PlainTag(tag) && 0 < x < |Header(tag)|
    ensures Header(tag)[x] == 32 && Header(tag)[x - 1] == 78 ==> x == 10
  {
    var h := Header(tag);
    HeaderLetters(tag);
    assert forall k :: 0 <= k < 5 ==> h[k] == DASH;
    assert 11 <= x < 11 + |tag| ==> h[x] == tag[x - 11];
    assert 11 < x <= 11 + |tag| ==> h[x - 1] == tag[x - 12];
  }

  lemma FooterSpaces(tag: bytes, x: nat)
    requires PlainTag(tag) && x < |Footer(tag)|
    ensures Footer(tag)[x] == 32 ==> x > 0 && Footer(tag)[x - 1] != 78
  {
    var f := Footer(tag);
    FooterLetters(tag);
    assert 9 <= x < 9 + |tag| ==> f[x] == tag[x - 9];
    assert 9 < x <= 9 + |tag| ==> f[x - 1] == tag[x - 10];
  }

  lemma FooterLetters(tag: bytes)
    ensures var f := Footer(tag);
            |f| == 14 + |tag| && f[7] == 68 && f[8] == 32 && (forall k :: 0 <= k < 8 ==> f[k] != 32) &&
            forall k :: 9 + |tag| <= k < |f| ==> f[k] == DASH
  {
  }

  /** The only space after an N in a printed text is the one before the tag. */
  lemma OnlySpace(tag: bytes, data: bytes, x: nat)
    requires PlainTag(tag) && 0 < x < |PemText(tag, data)|
    ensures PemText(tag, data)[x] == 32 && PemText(tag, data)[x - 1] == 78 ==> x == 10
  {
    hide Header, Footer, Body, PlainTag;
    var s, h, foot := PemText(tag, data), |Header(tag)|, |Header(tag)| + 1 + |Body(data)|;
    BodyHasNoSpace(data);
    HeaderFooter(tag);
    if x < h {
      assert s[x] == Header(tag)[x] && s[x - 1] == Header(tag)[x - 1];
      HeaderSpaces(tag, x);
    } else if h < x < foot {
      assert s[x] == Body(data)[x - h - 1];
    } else if foot < x < foot + |Footer(tag)| {
      assert s[x] == Footer(tag)[x - foot] && s[x - 1] == Footer(tag)[x - foot - 1];
      FooterSpaces(tag, x - foot);
    } else {
      assert s[h] == LF && s[foot] == Footer(tag)[0] && s[foot + |Footer(tag)|] == LF;
    }
  }

  /** A label without dashes is found in a printed text exactly when the tag starts with it. */
  lemma LabelFoundIff(tag: bytes, data: bytes, name: bytes)
    requires PlainTag(tag) && PlainTag(name)
    ensures Contains(PemText(tag, data), BEGIN_SPACE + name) <==> name <= tag
  {
    hide Body, PlainTag, At;
    var s, p := PemText(tag, data), BEGIN_SPACE + name;
    BeginLetters();
    HeaderStart(tag, data, name);
    if Contains(s, p) {
      var i :| 0 <= i <= |s| && At(s, p, i);
      AtIndex(s, p, i, 4);
      AtIndex(s, p, i, 5);
      AtBounds(s, p, i);
      OnlySpace(tag, data, i + 5);
    }
  }

  lemma AtBounds(s: bytes, p: bytes, i: int)
    requires At(s, p, i)
    ensures 0 <= i && i + |p| <= |s| && s[i..i + |p|] == p
  {
  }

  lemma HeaderStart(tag: bytes, data: bytes, name: bytes)
    requires PlainTag(name)
    ensures At(PemText(tag, data), BEGIN_SPACE + name, 5) <==> name <= tag
  {
    hide Body, Footer;
    var s, p := PemText(tag, data), BEGIN_SPACE + name;
    assert |B("-----BEGIN ")| == 11 && B("-----BEGIN ")[5..] == BEGIN_SPACE && |B("-----")| == 5;
    assert B("-----")[0] == DASH;
    assert s[5..11] == BEGIN_SPACE && s[11..11 + |tag|] == tag && s[11 + |tag|] == DASH;
    AtTail(s, name);
    if |name| > |tag| {
      AtIndex(s, p, 5, 6 + |tag|);
      assert p[6 + |tag|] == name[|tag|];
    } else {
      assert s[11..11 + |name|] == tag[..|name|];
    }
  }

  lemma AtTail(s: bytes, name: bytes)
    requires |s| >= 11 && s[5..11] == BEGIN_SPACE
    ensures At(s, BEGIN_SPACE + name, 5) <==> 11 + |name| <= |s| && s[11..11 + |name|] == name
  {
    BeginLetters();
    hide BEGIN_SPACE;
    var p := BEGIN_SPACE + name;
    if 11 + |name| <= |s| {
      assert s[5..5 + |p|] == s[5..11] + s[11..11 + |name|];
      assert p[..6] == BEGIN_SPACE && p[6..] == name;
      assert s[5..5 + |p|][6..] == s[11..11 + |name|];
    }
  }

  /** The five labels the function knows. */
  datatype Kind = RsaPrivate | PrivateKey | EcPrivate | PublicKey | RsaPublic {
    function Tag(): bytes {
      match this
      case RsaPrivate => B("RSA PRIVATE KEY")
      case PrivateKey => B("PRIVATE KEY")
      case EcPrivate => B("EC PRIVATE KEY")
      case PublicKey => B("PUBLIC KEY")
      case RsaPublic => B("RSA PUBLIC KEY")
    }

    predicate Public() {
      PublicKey? || RsaPublic?
    }
  }

  lemma Letters()
    ensures B("RSA ") == [82, 83, 65, 32] && B("EC ") == [69, 67, 32] && B("KEY") == [75, 69, 89]
    ensures B("PRIVATE ") == [80, 82, 73, 86, 65, 84, 69, 32] && B("PUBLIC ") == [80, 85, 66, 76, 73, 67, 32]
  {
  }

  /** The tags word by word. */
  lemma TagWords(k: Kind)
    ensures k.Tag() == match k
                       case RsaPrivate => B("RSA ") + (B("PRIVATE ") + B("KEY"))
                       case PrivateKey => B("PRIVATE ") + B("KEY")
                       case EcPrivate => B("EC ") + (B("PRIVATE ") + B("KEY"))
                       case PublicKey => B("PUBLIC ") + B("KEY")
                       case RsaPublic => B("RSA ") + (B("PUBLIC ") + B("KEY"))
  {
    hide B;
    BConcat("RSA ", "PRIVATE KEY");
    BConcat("RSA ", "PUBLIC KEY");
    BConcat("EC ", "PRIVATE KEY");
    BConcat("PRIVATE ", "KEY");
    BConcat("PUBLIC ", "KEY");
    assert "RSA " + "PRIVATE KEY" == "RSA PRIVATE KEY" && "RSA " + "PUBLIC KEY" == "RSA PUBLIC KEY";
    assert "EC " + "PRIVATE KEY" == "EC PRIVATE KEY";
    assert "PRIVATE " + "KEY" == "PRIVATE KEY" && "PUBLIC " + "KEY" == "PUBLIC KEY";
  }

  lemma PlainConcat(a: bytes, b: bytes)
    requires PlainTag(a) && PlainTag(b) && Ascii(a) && Ascii(b) && b != [] && b[0] != 32
    ensures PlainTag(a + b) && Ascii(a + b) && (a + b)[0] == (if a == [] then b[0] else a[0]) && a + b != []
  {
  }

  lemma TagsArePlain(k: Kind)
    ensures PlainTag(k.Tag()) && NoLf(k.Tag()) && Ascii(k.Tag()) && !Contains(k.Tag(), END)
  {
    TagWords(k);
    Letters();
    hide Contains, Kind.Tag, B;
    var key, private, public := B("KEY"), B("PRIVATE "), B("PUBLIC ");
    PlainWords();
    PlainConcat(private, key);
    PlainConcat(public, key);
    PlainConcat(B("RSA "), private + key);
    PlainConcat(B("RSA "), public + key);
    PlainConcat(B("EC "), private + key);
    PlainDashes(k.Tag());
    NoDashNoEnd(k.Tag());
  }

  lemma PlainWords()
    ensures PlainTag(B("KEY")) && PlainTag(B("PRIVATE ")) && PlainTag(B("PUBLIC ")) && PlainTag(B("RSA ")) &&
            PlainTag(B("EC "))
    ensures Ascii(B("KEY")) && Ascii(B("PRIVATE ")) && Ascii(B("PUBLIC ")) && Ascii(B("RSA ")) && Ascii(B("EC "))
  {
    Letters();
    hide B;
  }

  lemma PlainDashes(tag: bytes)
    requires PlainTag(tag)
    ensures NoLf(tag) && forall i :: 0 <= i < |tag| ==> tag[i] != DASH
  {
  }

  lemma NoDashNoEnd(s: bytes)
    requires forall i :: 0 <= i < |s| ==> s[i] != DASH
    ensures !Contains(s, END)
  {
    NoDashNoArmour(s);
  }

  /** The letters that tell the tags apart. */
  lemma TagStart(k: Kind)
    ensures var t := k.Tag();
            |t| >= 10 && t[0] == (if k.EcPrivate? then 69 else if k.PrivateKey? || k.PublicKey? then 80 else 82) &&
            t[1] == (if k.EcPrivate? then 67 else if k.PrivateKey? then 82 else if k.PublicKey? then 85 else 83) &&
            (k.RsaPrivate? ==> t[5] == 82) && (k.RsaPublic? ==> t[5] == 85)
  {
    TagWords(k);
    Letters();
    hide B, Kind.Tag;
  }

  lemma TagsPrefixFree(k: Kind, l: Kind)
    ensures l.Tag() <= k.Tag() <==> k == l
  {
    TagStart(k);
    TagStart(l);
    hide Kind.Tag;
  }

  lemma BConcat(a: string, b: string)
    ensures B(a + b) == B(a) + B(b)
  {
  }

  lemma FullLabels()
    ensures B("BEGIN RSA PRIVATE KEY") == BEGIN_SPACE + RsaPrivate.Tag()
    ensures B("BEGIN PRIVATE KEY") == BEGIN_SPACE + PrivateKey.Tag()
    ensures B("BEGIN EC PRIVATE KEY") == BEGIN_SPACE + EcPrivate.Tag()
    ensures B("BEGIN PUBLIC KEY") == BEGIN_SPACE + PublicKey.Tag()
    ensures B("BEGIN RSA PUBLIC KEY") == BEGIN_SPACE + RsaPublic.Tag()
  {
    hide B;
    BConcat("BEGIN ", "RSA PRIVATE KEY");
    BConcat("BEGIN ", "PRIVATE KEY");
    BConcat("BEGIN ", "EC PRIVATE KEY");
    BConcat("BEGIN ", "PUBLIC KEY");
    BConcat("BEGIN ", "RSA PUBLIC KEY");
    assert "BEGIN " + "RSA PRIVATE KEY" == "BEGIN RSA PRIVATE KEY";
    assert "BEGIN " + "PRIVATE KEY" == "BEGIN PRIVATE KEY";
    assert "BEGIN " + "EC PRIVATE KEY" == "BEGIN EC PRIVATE KEY";
    assert "BEGIN " + "PUBLIC KEY" == "BEGIN PUBLIC KEY";
    assert "BEGIN " + "RSA PUBLIC KEY" == "BEGIN RSA PUBLIC KEY";
  }

  /** A printed text shows its own kind, public or private, and not the other. */
  lemma LabelsOfPem(k: Kind, data: bytes)
    ensures PublicLabel(PemText(k.Tag(), data)) == k.Public() && PrivateLabel(PemText(k.Tag(), data)) == !k.Public()
  {
    hide B, PemText, Contains, PlainTag, Kind.Tag;
    FullLabels();
    LabelOfKind(k, data, RsaPrivate);
    LabelOfKind(k, data, PrivateKey);
    LabelOfKind(k, data, EcPrivate);
    LabelOfKind(k, data, PublicKey);
    LabelOfKind(k, data, RsaPublic);
  }

  lemma LabelOfKind(k: Kind, data: bytes, l: Kind)
    ensures Contains(PemText(k.Tag(), data), BEGIN_SPACE + l.Tag()) <==> k == l
  {
    hide Kind.Tag, PemText, Contains, PlainTag;
    TagsArePlain(k);
    TagsArePlain(l);
    LabelFoundIff(k.Tag(), data, l.Tag());
    TagsPrefixFree(k, l);
  }

  // ---------- from DER through PEM to the parsers ----------

  /** What every UTF-8 decoder does: it takes ASCII, and trimming does not break it. */
  ghost predicate Utf8Laws(utf8: bytes -> bool) {
    (forall s: bytes :: Ascii(s) ==> utf8(s)) && (forall s :: utf8(s) ==> utf8(Trim(s)))
  }

  predicate Ascii(s: bytes) {
    forall i :: 0 <= i < |s| ==> s[i] < 128
  }

  lemma PemIsAscii(tag: bytes, data: bytes)
    requires Ascii(tag)
    ensures Ascii(PemText(tag, data))
  {
    hide Body;
    BodyHasNoSpace(data);
    assert Ascii(B("-----BEGIN ")) && Ascii(B("-----END ")) && Ascii(B("-----"));
    assert Ascii(Header(tag)) && Ascii(Footer(tag));
  }

  /** Printing DER under a known label and converting the text runs the label's parsers on that DER. */
  lemma PemToJwkOfPem(k: Kind, data: bytes, utf8: bytes -> bool, ed25519: Ed25519)
    requires Utf8Laws(utf8) && data != []
    ensures PemToJwk(PemText(k.Tag(), data), utf8, ed25519)
         == FromDispatch(Dispatch(k.Public(), !k.Public(), data, ed25519))
  {
    hide PemText, PemDer, Contains, Trim, Dispatch, SshLine, Kind.Tag, PublicLabel, PrivateLabel, Ascii;
    TagsArePlain(k);
    PemIsAscii(k.Tag(), data);
    NotSshLine(k.Tag(), data);
    PemExtractIff(k.Tag(), data);
    LabelsOfPem(k, data);
  }

  // ---------- keys end to end ----------

  /** An EC private key in PKCS#8 form comes back with all its members. */
  lemma EcKeyThroughPem(c: Curve, d: bytes, x: bytes, y: bytes, utf8: bytes -> bool, ed25519: Ed25519)
    requires Utf8Laws(utf8) && |x| == |y| && |Pkcs8Ec(c, d, Some((x, y)))| < LIMIT
    ensures PemToJwk(PemText(PrivateKey.Tag(), Pkcs8Ec(c, d, Some((x, y)))), utf8, ed25519)
         == Done(EcPrivateJwk(c, d, Some((x, y))))
  {
    hide Pkcs8Ec, EcPrivateJwk, PemToJwk, PemText, Kind.Tag, Dispatch;
    Pkcs8EcNotEmpty(c, d, Some((x, y)));
    PemToJwkOfPem(PrivateKey, Pkcs8Ec(c, d, Some((x, y))), utf8, ed25519);
    EcPrivateDispatch(c, d, Some((x, y)), ed25519);
    CutBalanced(x, y);
  }

  lemma Pkcs8EcNotEmpty(c: Curve, d: bytes, xy: Option<(bytes, bytes)>)
    ensures Pkcs8Ec(c, d, xy) != []
  {
    hide IntTlv, EcAlgorithm, Sec1;
  }

  lemma CutBalanced(x: bytes, y: bytes)
    requires |x| == |y|
    ensures Cut(x + y) == (x, y)
  {
  }

  /** The whole way: an EC private JWK with validated coordinates, printed, armoured, converted. */
  lemma EcJwkThroughPem(jwk: Value, rng: seq<seq<RsaMath.Fill>>, utf8: bytes -> bool, ed25519: Ed25519)
    requires Utf8Laws(utf8)
    requires jwk.GetStr("kty") == Some(B("EC")) && ValidEcCoordinates(jwk)
    requires jwk.GetStr("crv").Some? && CurveOfName(jwk.GetStr("crv").value).Some?
    requires jwk.GetStr("d").Some? && jwk.GetStr("x").Some? && jwk.GetStr("y").Some?
    ensures KeyBytes(jwk, false, rng).Ok?
    ensures var result := PemToJwk(PemText(PrivateKey.Tag(), KeyBytes(jwk, false, rng).value), utf8, ed25519);
            result.Done? && forall f :: f in {"kty", "crv", "d", "x", "y"} ==> result.value.GetStr(f) == jwk.GetStr(f)
  {
    hide KeyBytes, PemToJwk, PemText, Kind.Tag, Pkcs8Ec, ParseEcPrivate, B;
    EcKeySurvives(jwk, rng);
    var c, d, x, y := EcJwkPrinted(jwk, rng);
    EcKeyThroughPem(c, d, x, y, utf8, ed25519);
    EcPrivateRoundTripIff(c, d, x, y);
  }

  lemma RsaNotEmpty(k: RsaCrt.Components, n: nat, e: nat)
    ensures RsaPrivateDer(k) != [] && RsaSpki(n, e) != [] && RsaPublicDer(n, e) != [] &&
            Pkcs8Rsa(RsaPrivateDer(k)) != []
  {
    hide RsaFields, IntTlv, RSA_ALGORITHM, DerLen;
  }

  /** All eight integers of an RSA private key come back from its PKCS#1 text. */
  lemma RsaKeyThroughPem(k: RsaCrt.Components, utf8: bytes -> bool, ed25519: Ed25519)
    requires Utf8Laws(utf8) && |RsaPrivateDer(k)| < LIMIT
    ensures PemToJwk(PemText(RsaPrivate.Tag(), RsaPrivateDer(k)), utf8, ed25519)
         == Done(RsaPrivateJwk(ToBE(k.n), ToBE(k.e), ToBE(k.d), ToBE(k.p), ToBE(k.q), ToBE(k.dp), ToBE(k.dq),
                               ToBE(k.qi)))
  {
    RsaSizes(k);
    hide RsaPrivateDer, RsaPrivateJwk, PemToJwk, PemText, Kind.Tag, ParseRsaPrivate, IntTlv, RsaFields;
    RsaNotEmpty(k, 0, 0);
    PemToJwkOfPem(RsaPrivate, RsaPrivateDer(k), utf8, ed25519);
    RsaPrivateRoundTrip(k);
  }

  /** And from its PKCS#8 text. */
  lemma WrappedRsaKeyThroughPem(k: RsaCrt.Components, utf8: bytes -> bool, ed25519: Ed25519)
    requires Utf8Laws(utf8) && |Pkcs8Rsa(RsaPrivateDer(k))| < LIMIT
    ensures PemToJwk(PemText(PrivateKey.Tag(), Pkcs8Rsa(RsaPrivateDer(k))), utf8, ed25519)
         == Done(RsaPrivateJwk(ToBE(k.n), ToBE(k.e), ToBE(k.d), ToBE(k.p), ToBE(k.q), ToBE(k.dp), ToBE(k.dq),
                               ToBE(k.qi)))
  {
    RsaSizes(k);
    hide RsaPrivateDer, Pkcs8Rsa, RsaPrivateJwk, PemToJwk, PemText, Kind.Tag, ParseRsaPrivate, IntTlv, RsaFields;
    RsaNotEmpty(k, 0, 0);
    PemToJwkOfPem(PrivateKey, Pkcs8Rsa(RsaPrivateDer(k)), utf8, ed25519);
    RsaPrivateRoundTrip(k);
    WrapTransparent(RsaPrivateDer(k));
  }

  /**
   The whole way: a private RSA JWK, complete or rebuilt, denotes the same key after printing, armouring and converting.
   */
  lemma RsaJwkThroughPem(jwk: Value, rng: seq<seq<RsaMath.Fill>>, utf8: bytes -> bool, ed25519: Ed25519)
    requires Utf8Laws(utf8)
    requires Recoverable(jwk) && jwk.GetStr("kty") == Some(B("RSA")) && jwk.Get("d").Some?
    requires KeyBytes(jwk, false, rng).Ok? && |KeyBytes(jwk, false, rng).value| < LIMIT
    ensures var result := PemToJwk(PemText(RsaPrivate.Tag(), KeyBytes(jwk, false, rng).value), utf8, ed25519);
            result.Done? && Recoverable(result.value) && RsaComponents(result.value, rng) == RsaComponents(jwk, rng)
  {
    hide KeyBytes, PemToJwk, PemText, Kind.Tag, RsaPrivateDer, RsaPrivateJwk, RsaComponents, Recoverable, B;
    RsaBranch(jwk, rng);
    var k := RsaComponents(jwk, rng).value;
    RsaKeyThroughPem(k, utf8, ed25519);
    ComponentsReadBack(k, rng);
  }

  lemma RsaSizes(k: RsaCrt.Components)
    ensures |IntTlv(0) + RsaFields(k)| < |RsaPrivateDer(k)| < |Pkcs8Rsa(RsaPrivateDer(k))|
  {
    hide RsaFields, IntTlv, RSA_ALGORITHM, DerLen;
  }

  lemma Pkcs1PublicReads(n: nat, e: nat)
    requires |RsaPublicDer(n, e)| < LIMIT
    ensures ParseRsaPublic(RsaPublicDer(n, e)) == Ok(RsaPublicJwk(ToBE(n), ToBE(e)))
  {
    hide RsaPublicJwk, ReadInteger;
    var fields := IntTlv(n) + IntTlv(e);
    TlvFirst(0x30, fields, []);
    TlvFirst(0x02, IntContent(n), IntTlv(e));
    TopReadsBack(0x30, fields);
    IntReads(n, IntTlv(e));
    IntReads(e, []);
    assert IntTlv(e) + [] == IntTlv(e);
  }

  /** Modulus and exponent come back from the text of the SubjectPublicKeyInfo. */
  lemma RsaSpkiThroughPem(n: nat, e: nat, utf8: bytes -> bool, ed25519: Ed25519)
    requires Utf8Laws(utf8) && |RsaSpki(n, e)| < LIMIT
    ensures PemToJwk(PemText(PublicKey.Tag(), RsaSpki(n, e)), utf8, ed25519) == Done(RsaPublicJwk(ToBE(n), ToBE(e)))
  {
    hide RsaSpki, RsaPublicDer, RsaPublicJwk, PemToJwk, PemText, Kind.Tag, ParseRsaPublic;
    RsaNotEmpty(RsaCrt.Components(0, 0, 0, 0, 0, 0, 0, 0), n, e);
    PemToJwkOfPem(PublicKey, RsaSpki(n, e), utf8, ed25519);
    RsaPublicRoundTrip(n, e);
  }

  /** The whole way: a JWK printed as a public RSA key keeps its modulus and exponent. */
  lemma RsaPublicJwkThroughPem(jwk: Value, publicOnly: bool, rng: seq<seq<RsaMath.Fill>>, utf8: bytes -> bool,
                               ed25519: Ed25519)
    requires Utf8Laws(utf8)
    requires jwk.GetStr("kty") == Some(B("RSA")) && (publicOnly || jwk.Get("d") == None)
    requires KeyBytes(jwk, publicOnly, rng).Ok? && |KeyBytes(jwk, publicOnly, rng).value| < LIMIT
    ensures var result := PemToJwk(PemText(B("PUBLIC KEY"), KeyBytes(jwk, publicOnly, rng).value), utf8, ed25519);
            result.Done? && GetBigUint(jwk, "n").Ok? && GetBigUint(jwk, "e").Ok? &&
            GetBigUint(result.value, "n") == GetBigUint(jwk, "n") &&
            GetBigUint(result.value, "e") == GetBigUint(jwk, "e")
  {
    hide B, GetBigUint, RsaSpki, PemToJwk, PemText, RsaPublicJwk;
    KeyTypesDistinct();
    var n, e := GetBigUint(jwk, "n").value, GetBigUint(jwk, "e").value;
    RsaSpkiThroughPem(n, e, utf8, ed25519);
    PublicReadsBack(n, e);
  }

  /** And from the text of the bare RSAPublicKey. */
  lemma RsaPublicKeyThroughPem(n: nat, e: nat, utf8: bytes -> bool, ed25519: Ed25519)
    requires Utf8Laws(utf8) && |RsaPublicDer(n, e)| < LIMIT
    ensures PemToJwk(PemText(RsaPublic.Tag(), RsaPublicDer(n, e)), utf8, ed25519)
         == Done(RsaPublicJwk(ToBE(n), ToBE(e)))
  {
    hide RsaSpki, RsaPublicDer, RsaPublicJwk, PemToJwk, PemText, Kind.Tag, ParseRsaPublic;
    RsaNotEmpty(RsaCrt.Components(0, 0, 0, 0, 0, 0, 0, 0), n, e);
    PemToJwkOfPem(RsaPublic, RsaPublicDer(n, e), utf8, ed25519);
    Pkcs1PublicReads(n, e);
  }

  /** A bare SEC 1 structure is refused by the RSA parser and read by the EC parser through its own parameters. */
  lemma Sec1Dispatch(c: Curve, d: bytes, xy: Option<(bytes, bytes)>, ed25519: Ed25519)
    requires |Sec1(c, d, xy)| < LIMIT
    ensures ParseRsaPrivate(Sec1(c, d, xy)).Err?
    ensures Dispatch(false, true, Sec1(c, d, xy), ed25519)
         == Ok(EcPrivateJwk(c, d, if xy == None then None else Some(Cut(xy.value.0 + xy.value.1))))
  {
    hide IntTlv, ReadInteger, EcPrivateJwk, PublicPart, Sec1Point;
    var params, public := Tlv(0xA0, OidTlv(c.Oid())), PublicPart(xy);
    var body := IntTlv(1) + (Tlv(0x04, d) + (params + public));
    TlvFirst(0x30, body, []);
    TlvFirst(0x04, d, params + public);
    BodySizes(c, d, xy);
    TopReadsBack(0x30, body);
    ZeroTlv(Tlv(0x04, d) + (params + public));
    TaggedReadsBack(0x04, d, params + public);
    EcAlgorithmReads(c);
    OptionalReads(0xA0, OidTlv(c.Oid()), public);
    CurveOidKnown(c);
    PublicPartReads(xy);
    FirstFieldRefused(Tlv(0x04, d) + (params + public));
  }

  lemma BodySizes(c: Curve, d: bytes, xy: Option<(bytes, bytes)>)
    ensures |d| < |Sec1(c, d, xy)| && |PublicPart(xy)| < |Sec1(c, d, xy)|
  {
    TlvFirst(0x30, IntTlv(1) + (Tlv(0x04, d) + (Tlv(0xA0, OidTlv(c.Oid())) + PublicPart(xy))), []);
    TlvFirst(0x04, d, []);
  }

  lemma FirstFieldRefused(rest: bytes)
    requires rest != [] && rest[0] == 0x04
    ensures ParseRsaFields(rest).Err?
  {
    WrongTagRefused(0x02, rest);
  }

  lemma Sec1ThroughPem(c: Curve, d: bytes, x: bytes, y: bytes, utf8: bytes -> bool, ed25519: Ed25519)
    requires Utf8Laws(utf8) && |x| == |y| && |Sec1(c, d, Some((x, y)))| < LIMIT
    ensures PemToJwk(PemText(EcPrivate.Tag(), Sec1(c, d, Some((x, y)))), utf8, ed25519)
         == Done(EcPrivateJwk(c, d, Some((x, y))))
  {
    hide EcPrivateJwk, PemToJwk, PemText, Kind.Tag, Dispatch, Sec1, Cut;
    Sec1NotEmpty(c, d, Some((x, y)));
    PemToJwkOfPem(EcPrivate, Sec1(c, d, Some((x, y))), utf8, ed25519);
    Sec1Dispatch(c, d, Some((x, y)), ed25519);
    CutBalanced(x, y);
  }

  lemma Sec1NotEmpty(c: Curve, d: bytes, xy: Option<(bytes, bytes)>)
    ensures Sec1(c, d, xy) != []
  {
    hide IntTlv, OidTlv, PublicPart;
  }

  // ---------- SSH lines end to end ----------

  lemma SshTrimmed(kind: bytes, blob: bytes, comment: bytes)
    ensures SSH_RSA <= kind || SSH_ED25519 <= kind || SSH_ECDSA <= kind ==> SshLine(KeyLine(kind, blob, comment))
  {
    hide Base64.Encode;
    var line := KeyLine(kind, blob, comment);
    assert line[..|kind|] == kind;
    assert B("ssh-") == SSH_RSA[..4] && B("ssh-") == SSH_ED25519[..4] && B("ecdsa-") == SSH_ECDSA[..6];
    PrefixOfPrefix(B("ssh-"), kind, line);
    PrefixOfPrefix(B("ecdsa-"), kind, line);
  }

  lemma PrefixOfPrefix(a: bytes, b: bytes, c: bytes)
    ensures a <= b && b <= c ==> a <= c
  {
  }

  /**
   An RSA key line, with any white space around it, comes to the JWK of its modulus and exponent, except that an
   empty field makes the call panic.
   */
  lemma RsaLineToJwk(s: bytes, e: bytes, n: bytes, extra: bytes, comment: bytes, utf8: bytes -> bool, ed25519: Ed25519)
    requires Utf8Laws(utf8) && utf8(s) && Trim(s) == KeyLine(SSH_RSA, RsaBlob(e, n, extra), comment) &&
             IsComment(comment)
    requires |RsaPublicDer(FromBE(n), FromBE(e))| < LIMIT && |e| < 0x1_0000_0000 && |n| < 0x1_0000_0000
    ensures PemToJwk(s, utf8, ed25519)
         == if e == [] || n == [] then Panics else Done(RsaPublicJwk(ToBE(FromBE(n)), ToBE(FromBE(e))))
  {
    hide PemText, RsaPublicDer, RsaPublicJwk, SshToPem, SshLine, KeyLine, RsaBlob, Trim, Kind.Tag, B, ArmouredToJwk;
    RsaLineConverts(e, n, extra, comment, utf8);
    SshTrimmed(SSH_RSA, RsaBlob(e, n, extra), comment);
    RsaTag();
    if e != [] && n != [] {
      RsaPublicKeyThroughPem(FromBE(n), FromBE(e), utf8, ed25519);
    }
  }

  lemma RsaTag()
    ensures RsaPublic.Tag() == B("RSA PUBLIC KEY") && PublicKey.Tag() == B("PUBLIC KEY")
  {
  }

  /** An Ed25519 key line comes to its OKP JWK exactly when its key bytes do not read as two INTEGERs. */
  lemma Ed25519LineToJwkIff(s: bytes, key: bytes, extra: bytes, comment: bytes, utf8: bytes -> bool, ed25519: Ed25519)
    requires Utf8Laws(utf8) && utf8(s) && Trim(s) == KeyLine(SSH_ED25519, Ed25519Blob(key, extra), comment) &&
             IsComment(comment)
    requires |key| == 32
    ensures PemToJwk(s, utf8, ed25519)
         == Done(Obj(map["kty" := Str(B("OKP")), "crv" := Str(B("Ed25519")), "x" := Str(KeyFormats.B64(key))]))
       <==> !ReadsAsTwoIntegers(key)
  {
    hide PemText, SpkiOkp, SshToPem, SshLine, KeyLine, Ed25519Blob, Trim, Kind.Tag;
    hide B, ArmouredToJwk, Dispatch, ReadsAsTwoIntegers;
    hide KeyFormats.B64;
    Ed25519LineConverts(key, extra, comment, utf8);
    SshTrimmed(SSH_ED25519, Ed25519Blob(key, extra), comment);
    RsaTag();
    Ed25519Size(key);
    PemToJwkOfPem(PublicKey, SpkiOkp(OID_ED25519, key), utf8, ed25519);
    OkpPublicDispatchIff(OID_ED25519, key, ed25519);
  }

  lemma Ed25519Size(key: bytes)
    requires |key| == 32
    ensures SpkiOkp(OID_ED25519, key) != [] && |SpkiOkp(OID_ED25519, key)| < LIMIT
    ensures IsOkpOid(OID_ED25519) && OkpName(OID_ED25519) == Some(B("Ed25519"))
  {
  }

  /** An ECDSA key line with an uncompressed point comes to the JWK of the curve named in its blob. */
  lemma EcdsaLineToJwk(s: bytes, suffix: bytes, name: bytes, curve: bytes, x: bytes, y: bytes, extra: bytes,
                       comment: bytes, utf8: bytes -> bool, ed25519: Ed25519)
    requires Utf8Laws(utf8) && utf8(s) && IsComment(comment) && IsWord(SSH_ECDSA + suffix)
    requires |name| < 0x1_0000_0000 && |curve| < 0x1_0000_0000 && SshCurve(curve).Some?
    requires |x| == SshCurve(curve).value.Size() && |y| == SshCurve(curve).value.Size()
    requires Trim(s) == KeyLine(SSH_ECDSA + suffix, EcdsaBlob(name, curve, [0x04] + (x + y), extra), comment)
    ensures PemToJwk(s, utf8, ed25519)
         == Done(Obj(map["kty" := Str(B("EC")), "crv" := Str(SshCurve(curve).value.Name()),
                         "x" := Str(KeyFormats.B64(x)), "y" := Str(KeyFormats.B64(y))]))
  {
    hide PemText, SpkiEc, SshToPem, SshLine, KeyLine, EcdsaBlob, Trim, Kind.Tag, B, ArmouredToJwk, Dispatch, SshCurve;
    hide KeyFormats.B64;
    var c, point := SshCurve(curve).value, [0x04] + (x + y);
    EcdsaLineConverts(suffix, name, curve, point, extra, comment, utf8);
    EcdsaPrefix(suffix);
    SshTrimmed(SSH_ECDSA + suffix, EcdsaBlob(name, curve, point, extra), comment);
    RsaTag();
    SpkiEcNotEmpty(c, point);
    PemToJwkOfPem(PublicKey, SpkiEc(c, point), utf8, ed25519);
    EcPublicDispatch(c, x, y, ed25519);
  }

  lemma EcdsaPrefix(suffix: bytes)
    ensures SSH_ECDSA <= SSH_ECDSA + suffix
  {
  }

  lemma SpkiEcNotEmpty(c: Curve, point: bytes)
    ensures SpkiEc(c, point) != []
  {
    hide EcAlgorithm, BitString;
  }
}
