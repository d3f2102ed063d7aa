/**
 PASETO version 4 tokens (src/crypto.rs and src/paseto.rs). BLAKE2b, XChaCha20 and Ed25519 are library
 code and enter as functions with the laws stated in `Laws` and `Matching`.
 */
module Paseto {
  import opened Base64
  import opened Bytes
  import opened Text

  /** mac(key, message, length), hash(message, length) and stream(key, nonce, data). */
  datatype Crypto = Crypto(
    mac: (bytes, bytes, nat) -> bytes,
    hash: (bytes, nat) -> bytes,
    stream: (bytes, bytes, bytes) -> bytes)
  {
    ghost predicate Laws() {
      (forall k, m, n :: |mac(k, m, n)| == n) &&
      (forall m, n :: |hash(m, n)| == n) &&
      (forall k, n, d :: |stream(k, n, d)| == |d|) &&
      (forall k, n, d :: stream(k, n, stream(k, n, d)) == d)
    }
  }

  const U64 := 0x1_0000_0000_0000_0000

  // ---------- pre-authentication encoding ----------

  function PaePieces(pieces: seq<bytes>): bytes {
    if pieces == [] then [] else FixedLE(|pieces[0]|, 8) + (pieces[0] + PaePieces(pieces[1..]))
  }

  function Pae(pieces: seq<bytes>): bytes {
    FixedLE(|pieces|, 8) + PaePieces(pieces)
  }

  /** The reader of the encoding: a little-endian count, then as many pieces behind their little-endian lengths. */
  function ReadPieces(n: nat, s: bytes): Option<seq<bytes>> {
    if n == 0 then (if s == [] then Some([]) else None)
    else if |s| < 8 || |s| - 8 < FromLE(s[..8]) then None
    else
      var len := FromLE(s[..8]);
      var rest := ReadPieces(n - 1, s[8 + len..]);
      if rest == None then None else Some([s[8..8 + len]] + rest.value)
  }

  function ReadPae(s: bytes): Option<seq<bytes>> {
    if |s| < 8 then None else ReadPieces(FromLE(s[..8]), s[8..])
  }

  ghost predicate Encodable(pieces: seq<bytes>) {
    |pieces| < U64 && forall i :: 0 <= i < |pieces| ==> |pieces[i]| < U64
  }

  lemma Width8()
    ensures Exp256(8) == U64
  {
  }

  lemma LengthReads(n: nat)
    requires n < U64
    ensures FromLE(FixedLE(n, 8)) == n
  {
    FromFixedLE(n, 8);
    Width8();
  }

  lemma {:induction false} PiecesReadBack(pieces: seq<bytes>)
    requires forall i :: 0 <= i < |pieces| ==> |pieces[i]| < U64
    ensures ReadPieces(|pieces|, PaePieces(pieces)) == Some(pieces)
  {
    hide FixedLE, FromLE;
    if pieces != [] {
      var p, tail := pieces[0], PaePieces(pieces[1..]);
      var s := FixedLE(|p|, 8) + (p + tail);
      LengthReads(|p|);
      PiecesReadBack(pieces[1..]);
      assert s[..8] == FixedLE(|p|, 8) && s[8..8 + |p|] == p && s[8 + |p|..] == tail;
      assert pieces == [p] + pieces[1..];
    }
  }

  lemma {:induction false} ReadPiecesAre(n: nat, s: bytes)
    requires ReadPieces(n, s).Some?
    ensures var pieces := ReadPieces(n, s).value;
            |pieces| == n && s == PaePieces(pieces) && forall i :: 0 <= i < n ==> |pieces[i]| < U64
  {
    hide FixedLE, FromLE;
    if n > 0 {
      var len := FromLE(s[..8]);
      ReadPiecesAre(n - 1, s[8 + len..]);
      FixedLEOfFrom(s[..8]);
      Width8();
      var pieces := ReadPieces(n, s).value;
      assert pieces[1..] == ReadPieces(n - 1, s[8 + len..]).value;
      assert s == s[..8] + (s[8..8 + len] + s[8 + len..]);
    }
  }

  /** The encodings of pieces shorter than 2^64 bytes are exactly the strings that read as them. */
  lemma PaeIff(pieces: seq<bytes>, s: bytes)
    ensures ReadPae(s) == Some(pieces) <==> Encodable(pieces) && s == Pae(pieces)
  {
    hide FixedLE, FromLE, ReadPieces, PaePieces;
    if ReadPae(s) == Some(pieces) {
      ReadPiecesAre(FromLE(s[..8]), s[8..]);
      FixedLEOfFrom(s[..8]);
      Width8();
      assert s == s[..8] + s[8..];
    }
    if Encodable(pieces) && s == Pae(pieces) {
      LengthReads(|pieces|);
      PiecesReadBack(pieces);
      assert s[..8] == FixedLE(|pieces|, 8) && s[8..] == PaePieces(pieces);
    }
  }

  method ComputePae(pieces: seq<bytes>) returns (out: bytes)
    ensures out == Pae(pieces)
    ensures Encodable(pieces) ==> ReadPae(out) == Some(pieces)
  {
    hide FixedLE, ReadPae, Encodable;
    out := FixedLE(|pieces|, 8);
    for i := 0 to |pieces|
      invariant out + PaePieces(pieces[i..]) == Pae(pieces)
    {
      var p := pieces[i];
      assert pieces[i..][1..] == pieces[i + 1..];
      assert out + (FixedLE(|p|, 8) + (p + PaePieces(pieces[i + 1..])))
           == out + FixedLE(|p|, 8) + p + PaePieces(pieces[i + 1..]);
      out := out + FixedLE(|p|, 8);
      out := out + p;
    }
    PaeIff(pieces, out);
  }

  /** Distinct lists of pieces have distinct encodings. */
  lemma PaeInjective(a: seq<bytes>, b: seq<bytes>)
    requires Encodable(a) && Encodable(b) && Pae(a) == Pae(b)
    ensures a == b
  {
    hide Pae, ReadPae;
    PaeIff(a, Pae(a));
    PaeIff(b, Pae(b));
  }

  // ---------- v4.local ----------

  const LOCAL_HEADER: bytes := B("v4.local.")
  const PUBLIC_HEADER: bytes := B("v4.public.")

  datatype TokenError =
    | BadNonce | RngFailed | TooShort | BadSignature | BadKey | BadHeader | BadFormat | BadEncoding | SignFailed

  /** The cipher key, cipher nonce and authentication key derived from a 32-byte nonce. */
  function LocalKeys(c: Crypto, key: bytes, nonce: bytes): (bytes, bytes, bytes) {
    var tmp := c.mac(key, B("paseto-encryption-key") + nonce, 56);
    (if |tmp| == 56 then tmp[..32] else [], if |tmp| == 56 then tmp[32..] else [],
     c.mac(key, B("paseto-auth-key-for-aead") + nonce, 32))
  }

  function LocalPreAuth(nonce: bytes, ciphertext: bytes, footer: bytes, implicit: bytes): bytes {
    Pae([LOCAL_HEADER, nonce, ciphertext, footer, implicit])
  }

  /** nonce, ciphertext, tag */
  function LocalBody(c: Crypto, key: bytes, payload: bytes, footer: bytes, implicit: bytes, nonce: bytes): bytes {
    var (ek, n2, ak) := LocalKeys(c, key, nonce);
    var ciphertext := c.stream(ek, n2, payload);
    nonce + (ciphertext + c.mac(ak, LocalPreAuth(nonce, ciphertext, footer, implicit), 32))
  }

  function OpenLocal(c: Crypto, key: bytes, body: bytes, footer: bytes, implicit: bytes): Result<bytes, TokenError> {
    if |body| < 64 then Err(TooShort)
    else
      var nonce, ciphertext, tag := body[..32], body[32..|body| - 32], body[|body| - 32..];
      var (ek, n2, ak) := LocalKeys(c, key, nonce);
      if c.mac(ak, LocalPreAuth(nonce, ciphertext, footer, implicit), 32) != tag then Err(BadSignature)
      else Ok(c.stream(ek, n2, ciphertext))
  }

  /** The nonce: the caller's, if it has 32 bytes, or 32 random bytes. */
  function ChooseNonce(nonceOpt: Option<bytes>, random: Option<bytes>): Result<bytes, TokenError> {
    if nonceOpt.Some? then (if |nonceOpt.value| != 32 then Err(BadNonce) else Ok(nonceOpt.value))
    else if random == None then Err(RngFailed) else Ok(random.value)
  }

  method PasetoV4Encrypt(c: Crypto, key: bytes, payload: bytes, footer: bytes, implicit: bytes,
                         nonceOpt: Option<bytes>, random: Option<bytes>) returns (res: Result<bytes, TokenError>)
    requires c.Laws() && |key| == 32 && (random.Some? ==> |random.value| == 32)
    ensures var n := ChooseNonce(nonceOpt, random);
            res == if n.Err? then Err(n.error) else Ok(LocalBody(c, key, payload, footer, implicit, n.value))
  {
    hide B, Pae;
    var n := ChooseNonce(nonceOpt, random);
    if n.Err? {
      return Err(n.error);
    }
    var nonce := n.value;
    var tmp := c.mac(key, B("paseto-encryption-key") + nonce, 56);
    var ek, n2 := tmp[0..32], tmp[32..56];
    assert ek == tmp[..32] && n2 == tmp[32..];
    var ak := c.mac(key, B("paseto-auth-key-for-aead") + nonce, 32);
    var ciphertext := payload;
    ciphertext := c.stream(ek, n2, ciphertext);
    var preAuth := ComputePae([LOCAL_HEADER, nonce, ciphertext, footer, implicit]);
    var t := c.mac(ak, preAuth, 32);
    var output := nonce;
    output := output + ciphertext;
    output := output + t;
    assert output == nonce + (ciphertext + t);
    return Ok(output);
  }

  method PasetoV4Decrypt(c: Crypto, key: bytes, body: bytes, footer: bytes, implicit: bytes)
      returns (res: Result<bytes, TokenError>)
    requires c.Laws() && |key| == 32
    ensures res == OpenLocal(c, key, body, footer, implicit)
  {
    hide B, Pae;
    if |body| < 32 + 32 {
      return Err(TooShort);
    }
    var nonce := body[0..32];
    var tLen := |body| - 32;
    var ciphertext, tag := body[32..tLen], body[tLen..];
    assert nonce == body[..32];
    var tmp := c.mac(key, B("paseto-encryption-key") + nonce, 56);
    var ek, n2 := tmp[0..32], tmp[32..56];
    assert ek == tmp[..32] && n2 == tmp[32..];
    var ak := c.mac(key, B("paseto-auth-key-for-aead") + nonce, 32);
    var preAuth := ComputePae([LOCAL_HEADER, nonce, ciphertext, footer, implicit]);
    var expected := c.mac(ak, preAuth, 32);
    if expected != tag {
      return Err(BadSignature);
    }
    var plaintext := ciphertext;
    plaintext := c.stream(ek, n2, plaintext);
    return Ok(plaintext);
  }

  lemma BodyParts(c: Crypto, key: bytes, payload: bytes, footer: bytes, implicit: bytes, nonce: bytes)
    requires c.Laws() && |nonce| == 32
    ensures var body := LocalBody(c, key, payload, footer, implicit, nonce);
            var (ek, n2, ak) := LocalKeys(c, key, nonce);
            var ct := c.stream(ek, n2, payload);
            |body| == 64 + |payload| && body[..32] == nonce && body[32..|body| - 32] == ct &&
            body[|body| - 32..] == c.mac(ak, LocalPreAuth(nonce, ct, footer, implicit), 32)
  {
  }

  /** A body is accepted with plaintext p exactly when it is the encryption of p under its own nonce. */
  lemma LocalExact(c: Crypto, key: bytes, body: bytes, footer: bytes, implicit: bytes, p: bytes)
    requires c.Laws()
    ensures OpenLocal(c, key, body, footer, implicit) == Ok(p)
       <==> |body| >= 64 && body == LocalBody(c, key, p, footer, implicit, body[..32])
  {
    hide LocalKeys, LocalPreAuth;
    if |body| >= 64 {
      var nonce, ciphertext, tag := body[..32], body[32..|body| - 32], body[|body| - 32..];
      var (ek, n2, ak) := LocalKeys(c, key, nonce);
      assert body == nonce + (ciphertext + tag);
      BodyParts(c, key, p, footer, implicit, nonce);
      assert c.stream(ek, n2, c.stream(ek, n2, p)) == p;
      assert c.stream(ek, n2, c.stream(ek, n2, ciphertext)) == ciphertext;
    }
  }

  /** Decryption with the same key, footer and assertion returns the payload. */
  lemma LocalRoundTrip(c: Crypto, key: bytes, payload: bytes, footer: bytes, implicit: bytes, nonce: bytes)
    requires c.Laws() && |nonce| == 32
    ensures OpenLocal(c, key, LocalBody(c, key, payload, footer, implicit, nonce), footer, implicit) == Ok(payload)
  {
    BodyParts(c, key, payload, footer, implicit, nonce);
    LocalExact(c, key, LocalBody(c, key, payload, footer, implicit, nonce), footer, implicit, payload);
  }

  /**
   A body made for (footer, implicit) is accepted for (footer', implicit') only if they are the same,
   unless the keyed hash collides on exactly these two pre-authentication strings.
   */
  lemma LocalBinding(c: Crypto, key: bytes, payload: bytes, nonce: bytes,
                     footer: bytes, implicit: bytes, footer': bytes, implicit': bytes)
    requires c.Laws() && |nonce| == 32
    requires |payload| < U64 && |footer| < U64 && |implicit| < U64 && |footer'| < U64 && |implicit'| < U64
    requires var (ek, n2, ak) := LocalKeys(c, key, nonce);
             var ct := c.stream(ek, n2, payload);
             var m, m' := LocalPreAuth(nonce, ct, footer, implicit), LocalPreAuth(nonce, ct, footer', implicit');
             m == m' || c.mac(ak, m, 32) != c.mac(ak, m', 32)
    ensures OpenLocal(c, key, LocalBody(c, key, payload, footer, implicit, nonce), footer', implicit').Ok?
       <==> footer == footer' && implicit == implicit'
  {
    hide LocalKeys, Pae, LOCAL_HEADER;
    var (ek, n2, ak) := LocalKeys(c, key, nonce);
    var ct := c.stream(ek, n2, payload);
    BodyParts(c, key, payload, footer, implicit, nonce);
    if LocalPreAuth(nonce, ct, footer, implicit) == LocalPreAuth(nonce, ct, footer', implicit') {
      HeaderLength();
      var a, b := [LOCAL_HEADER, nonce, ct, footer, implicit], [LOCAL_HEADER, nonce, ct, footer', implicit'];
      PaeInjective(a, b);
      assert a[3] == b[3] && a[4] == b[4];
    }
  }

  lemma HeaderLength()
    ensures |LOCAL_HEADER| == 9 && |PUBLIC_HEADER| == 10
  {
  }

  // ---------- token texts ----------

  function B64(b: bytes): bytes {
    Encode(URL_SAFE_NO_PAD, b)
  }

  /** header, body and, if not empty, a dot and the footer */
  function TokenText(header: bytes, body: bytes, footer: bytes): bytes {
    header + (B64(body) + if footer == [] then [] else [DOT] + B64(footer))
  }

  /** The body and footer of a token with the given header. */
  function ParseToken(header: bytes, token: bytes): Result<(bytes, bytes), TokenError> {
    if !(header <= token) then Err(BadHeader)
    else
      var parts := SplitDots(token);
      if |parts| != 3 && |parts| != 4 then Err(BadFormat)
      else
        var footer := if |parts| == 3 then Some([]) else Decode(URL_SAFE_NO_PAD, parts[3]);
        var body := Decode(URL_SAFE_NO_PAD, parts[2]);
        if footer == None || body == None then Err(BadEncoding) else Ok((body.value, footer.value))
  }

  /** Headers of the form v.p. with dot-free v and p. */
  ghost predicate IsHeader(header: bytes) {
    exists v, p :: NoDot(v) && NoDot(p) && header == v + [DOT] + (p + [DOT])
  }

  lemma HeadersAreHeaders()
    ensures IsHeader(LOCAL_HEADER) && IsHeader(PUBLIC_HEADER)
  {
    assert LOCAL_HEADER == B("v4") + [DOT] + (B("local") + [DOT]);
    assert PUBLIC_HEADER == B("v4") + [DOT] + (B("public") + [DOT]);
    assert NoDot(B("v4")) && NoDot(B("local")) && NoDot(B("public"));
  }

  lemma SplitAfterHeader(header: bytes, rest: bytes) returns (v: bytes, p: bytes)
    requires IsHeader(header)
    ensures SplitDots(header + rest) == [v, p] + SplitDots(rest)
  {
    v, p :| NoDot(v) && NoDot(p) && header == v + [DOT] + (p + [DOT]);
    hide SplitDots, NoDot;
    HeaderRegroup(v, p, rest);
    SplitDotsCons(v, p + [DOT] + rest);
    SplitDotsCons(p, rest);
    PairPrepend(v, p, SplitDots(rest));
  }

  lemma HeaderRegroup(v: bytes, p: bytes, rest: bytes)
    ensures v + [DOT] + (p + [DOT]) + rest == v + [DOT] + (p + [DOT] + rest)
  {
  }

  lemma PairPrepend(v: bytes, p: bytes, tail: seq<bytes>)
    ensures [v] + ([p] + tail) == [v, p] + tail
  {
  }

  lemma TokenParses(header: bytes, body: bytes, footer: bytes)
    requires IsHeader(header)
    ensures ParseToken(header, TokenText(header, body, footer)) == Ok((body, footer))
    ensures footer == [] ==> ParseToken(header, TokenText(header, body, []) + [DOT]) == Ok((body, []))
  {
    hide IsHeader, Encode, Decode, SplitDots;
    RoundTrip(URL_SAFE_NO_PAD, body);
    RoundTrip(URL_SAFE_NO_PAD, footer);
    EncodedNoDot(body);
    EncodedNoDot(footer);
    var tail := B64(body) + if footer == [] then [] else [DOT] + B64(footer);
    var v, p := SplitAfterHeader(header, tail);
    SplitDotsCons(B64(footer), []);
    SplitDotsCons(B64(body), B64(footer));
    assert B64(body) + [] == B64(body);
    assert B64(body) + [DOT] + B64(footer) == B64(body) + ([DOT] + B64(footer));
    if footer == [] {
      EmptyFooter(header, body);
    }
  }

  lemma EmptyFooter(header: bytes, body: bytes)
    requires IsHeader(header)
    ensures ParseToken(header, TokenText(header, body, []) + [DOT]) == Ok((body, []))
  {
    hide IsHeader, Encode, SplitDots;
    RoundTrip(URL_SAFE_NO_PAD, body);
    EncodedNoDot(body);
    var v, p := SplitAfterHeader(header, B64(body) + [DOT] + []);
    SplitDotsCons(B64(body), []);
    SplitDotsCons([], []);
    assert TokenText(header, body, []) + [DOT] == header + (B64(body) + [DOT] + []);
    assert Decode(URL_SAFE_NO_PAD, []) == Some([]);
  }

  /**
   The texts that parse to (body, footer) are the token itself and, for an empty footer, the token with
   a dangling dot: base64 without padding is canonical, so nothing else is accepted.
   */
  lemma ParseExact(header: bytes, token: bytes, body: bytes, footer: bytes)
    requires IsHeader(header)
    ensures ParseToken(header, token) == Ok((body, footer))
       <==> token == TokenText(header, body, footer) || (footer == [] && token == TokenText(header, body, []) + [DOT])
  {
    hide IsHeader, Encode, Decode, SplitDots;
    if ParseToken(header, token) == Ok((body, footer)) {
      var rest := token[|header|..];
      assert token == header + rest;
      var v, p := SplitAfterHeader(header, rest);
      SplitDotsJoin(rest);
      var parts := SplitDots(token);
      DecodeIff(URL_SAFE_NO_PAD, parts[2], body);
      if |parts| == 3 {
        assert SplitDots(rest) == [parts[2]];
      } else {
        DecodeIff(URL_SAFE_NO_PAD, parts[3], footer);
        assert SplitDots(rest) == [parts[2], parts[3]];
        assert SplitDots(rest)[1..] == [parts[3]];
        assert rest == B64(body) + [DOT] + B64(footer);
        EncodeEmpty(footer);
        assert rest == B64(body) + ([DOT] + B64(footer));
        assert footer == [] ==> B64(body) + [] + [DOT] == rest;
      }
    } else if TokenOrTwin(token, TokenText(header, body, footer), footer) {
      TokenParses(header, body, footer);
    }
  }

  lemma EncodeEmpty(b: bytes)
    ensures b == [] ==> B64(b) == []
  {
  }

  // ---------- v4.local tokens ----------

  function Given(o: Option<bytes>): bytes {
    if o == None then [] else o.value
  }

  function LocalToken(c: Crypto, key: bytes, payload: bytes, footer: bytes, implicit: bytes, nonce: bytes): bytes {
    TokenText(LOCAL_HEADER, LocalBody(c, key, payload, footer, implicit, nonce), footer)
  }

  function OpenLocalToken(c: Crypto, token: bytes, key: bytes, implicit: bytes): Result<(bytes, bytes), TokenError> {
    if |key| != 32 then Err(BadKey)
    else
      var parsed := ParseToken(LOCAL_HEADER, token);
      if parsed.Err? then Err(parsed.error)
      else
        var plain := OpenLocal(c, key, parsed.value.0, parsed.value.1, implicit);
        if plain.Err? then Err(plain.error) else Ok((plain.value, parsed.value.1))
  }

  /** `encrypt_v4_local` for a raw key. */
  function SealLocalToken(c: Crypto, payload: bytes, key: bytes, footer: bytes, implicit: bytes,
                          nonceOpt: Option<bytes>, random: Option<bytes>)
      : Result<bytes, TokenError>
  {
    if |key| != 32 then Err(BadKey)
    else
      var n := ChooseNonce(nonceOpt, random);
      if n.Err? then Err(n.error) else Ok(LocalToken(c, key, payload, footer, implicit, n.value))
  }

  /** `rawKey` is the key after `decode_paserk_key`. */
  method EncryptV4Local(c: Crypto, payload: bytes, rawKey: bytes, footer: Option<bytes>, implicit: Option<bytes>,
                        nonceOpt: Option<bytes>, random: Option<bytes>) returns (res: Result<bytes, TokenError>)
    requires c.Laws() && (random.Some? ==> |random.value| == 32)
    ensures res == SealLocalToken(c, payload, rawKey, Given(footer), Given(implicit), nonceOpt, random)
  {
    hide B, Encode, LocalBody;
    if rawKey == [] || |rawKey| > 64 || |rawKey| != 32 {
      return Err(BadKey);
    }
    var footerBytes, assertion := Given(footer), Given(implicit);
    var body := PasetoV4Encrypt(c, rawKey, payload, footerBytes, assertion, nonceOpt, random);
    if body.Err? {
      return Err(body.error);
    }
    var token := LOCAL_HEADER;
    token := token + B64(body.value);
    if footerBytes != [] {
      token := token + [DOT];
      token := token + B64(footerBytes);
    }
    assert token == TokenText(LOCAL_HEADER, body.value, footerBytes);
    return Ok(token);
  }

  method DecryptV4Local(c: Crypto, token: bytes, rawKey: bytes, implicit: Option<bytes>)
      returns (res: Result<(bytes, bytes), TokenError>)
    requires c.Laws()
    ensures res == OpenLocalToken(c, token, rawKey, Given(implicit))
  {
    hide OpenLocal, SplitDots, Decode, B;
    if |rawKey| != 32 {
      return Err(BadKey);
    }
    if !(LOCAL_HEADER <= token) {
      return Err(BadHeader);
    }
    var parts := SplitDots(token);
    var footerBytes: bytes := [];
    if |parts| == 4 {
      var footer := Decode(URL_SAFE_NO_PAD, parts[3]);
      if footer == None {
        return Err(BadEncoding);
      }
      footerBytes := footer.value;
    } else if |parts| != 3 {
      return Err(BadFormat);
    }
    var body := Decode(URL_SAFE_NO_PAD, parts[2]);
    if body == None {
      return Err(BadEncoding);
    }
    var plaintext := PasetoV4Decrypt(c, rawKey, body.value, footerBytes, Given(implicit));
    if plaintext.Err? {
      return Err(plaintext.error);
    }
    return Ok((plaintext.value, footerBytes));
  }

  /** Exactly the tokens `encrypt_v4_local` makes decrypt, plus their dangling-dot twins when the footer is empty. */
  lemma LocalTokenExact(c: Crypto, token: bytes, key: bytes, implicit: bytes, payload: bytes, footer: bytes)
    requires c.Laws() && |key| == 32
    ensures OpenLocalToken(c, token, key, implicit) == Ok((payload, footer))
       <==> exists nonce :: |nonce| == 32 &&
                            TokenOrTwin(token, LocalToken(c, key, payload, footer, implicit, nonce), footer)
  {
    hide ParseToken, OpenLocal, LocalBody, IsHeader, TokenText;
    HeadersAreHeaders();
    if OpenLocalToken(c, token, key, implicit) == Ok((payload, footer)) {
      var body := ParseToken(LOCAL_HEADER, token).value.0;
      ParseExact(LOCAL_HEADER, token, body, footer);
      LocalExact(c, key, body, footer, implicit, payload);
      assert |body[..32]| == 32 &&
             TokenOrTwin(token, LocalToken(c, key, payload, footer, implicit, body[..32]), footer);
    }
    if nonce :| |nonce| == 32 && TokenOrTwin(token, LocalToken(c, key, payload, footer, implicit, nonce), footer) {
      var body := LocalBody(c, key, payload, footer, implicit, nonce);
      ParseExact(LOCAL_HEADER, token, body, footer);
      LocalRoundTrip(c, key, payload, footer, implicit, nonce);
    }
  }

  predicate TokenOrTwin(token: bytes, made: bytes, footer: bytes) {
    token == made || (footer == [] && token == made + [DOT])
  }

  // ---------- v4.public tokens ----------

  /** Ed25519: sign(secret, message) and verify(public, message, signature). */
  datatype Signer = Signer(sign: (bytes, bytes) -> Option<bytes>, verify: (bytes, bytes, bytes) -> bool)
  {
    ghost predicate Matching(secret: bytes, public: bytes) {
      forall m :: sign(secret, m).Some? ==> |sign(secret, m).value| == 64 && verify(public, m, sign(secret, m).value)
    }
  }

  function PublicMessage(payload: bytes, footer: bytes, implicit: bytes): bytes {
    Pae([PUBLIC_HEADER, payload, footer, implicit])
  }

  function PublicToken(payload: bytes, signature: bytes, footer: bytes): bytes {
    TokenText(PUBLIC_HEADER, payload + signature, footer)
  }

  function SignPublic(s: Signer, payload: bytes, secret: bytes, footer: bytes, implicit: bytes)
      : Result<bytes, TokenError>
  {
    var sig := s.sign(secret, PublicMessage(payload, footer, implicit));
    if sig == None then Err(SignFailed) else Ok(PublicToken(payload, sig.value, footer))
  }

  function VerifyPublic(s: Signer, token: bytes, public: bytes, implicit: bytes): Result<(bytes, bytes), TokenError> {
    var parsed := ParseToken(PUBLIC_HEADER, token);
    if parsed.Err? then Err(parsed.error)
    else
      var (body, footer) := parsed.value;
      if |body| < 64 then Err(TooShort)
      else
        var payload, signature := body[..|body| - 64], body[|body| - 64..];
        if s.verify(public, PublicMessage(payload, footer, implicit), signature) then Ok((payload, footer))
        else Err(BadSignature)
  }

  method SignV4Public(s: Signer, payload: bytes, rawKey: bytes, footer: Option<bytes>, implicit: Option<bytes>)
      returns (res: Result<bytes, TokenError>)
    ensures res == SignPublic(s, payload, rawKey, Given(footer), Given(implicit))
  {
    hide B, Pae, Encode;
    var footerBytes, assertion := Given(footer), Given(implicit);
    var m2 := ComputePae([PUBLIC_HEADER, payload, footerBytes, assertion]);
    var signature := s.sign(rawKey, m2);
    if signature == None {
      return Err(SignFailed);
    }
    var body := payload;
    body := body + signature.value;
    var token := PUBLIC_HEADER;
    token := token + B64(body);
    if footerBytes != [] {
      token := token + [DOT];
      token := token + B64(footerBytes);
    }
    assert token == TokenText(PUBLIC_HEADER, body, footerBytes);
    return Ok(token);
  }

  method VerifyV4Public(s: Signer, token: bytes, rawKey: bytes, implicit: Option<bytes>)
      returns (res: Result<(bytes, bytes), TokenError>)
    ensures res == VerifyPublic(s, token, rawKey, Given(implicit))
  {
    hide Pae, SplitDots, Decode, B;
    if !(PUBLIC_HEADER <= token) {
      return Err(BadHeader);
    }
    var parts := SplitDots(token);
    var footerBytes: bytes := [];
    if |parts| == 4 {
      var footer := Decode(URL_SAFE_NO_PAD, parts[3]);
      if footer == None {
        return Err(BadEncoding);
      }
      footerBytes := footer.value;
    } else if |parts| != 3 {
      return Err(BadFormat);
    }
    var decoded := Decode(URL_SAFE_NO_PAD, parts[2]);
    if decoded == None {
      return Err(BadEncoding);
    }
    var body := decoded.value;
    if |body| < 64 {
      return Err(TooShort);
    }
    var split := |body| - 64;
    var payload, signature := body[..split], body[split..];
    var m2 := ComputePae([PUBLIC_HEADER, payload, footerBytes, Given(implicit)]);
    if !s.verify(rawKey, m2, signature) {
      return Err(BadSignature);
    }
    return Ok((payload, footerBytes));
  }

  /**
   Accepted public tokens are exactly the texts carrying a valid 64-byte signature over (payload, footer, implicit).
   */
  lemma PublicTokenExact(s: Signer, token: bytes, public: bytes, implicit: bytes, payload: bytes, footer: bytes)
    ensures VerifyPublic(s, token, public, implicit) == Ok((payload, footer))
       <==> exists sig :: |sig| == 64 && s.verify(public, PublicMessage(payload, footer, implicit), sig) &&
                          TokenOrTwin(token, PublicToken(payload, sig, footer), footer)
  {
    hide ParseToken, IsHeader, TokenText, PublicMessage;
    HeadersAreHeaders();
    if VerifyPublic(s, token, public, implicit) == Ok((payload, footer)) {
      var body := ParseToken(PUBLIC_HEADER, token).value.0;
      var sig := body[|body| - 64..];
      ParseExact(PUBLIC_HEADER, token, body, footer);
      assert body == payload + sig;
      assert |sig| == 64 && TokenOrTwin(token, PublicToken(payload, sig, footer), footer);
    }
    if sig :| |sig| == 64 && s.verify(public, PublicMessage(payload, footer, implicit), sig) &&
              TokenOrTwin(token, PublicToken(payload, sig, footer), footer) {
      var body := payload + sig;
      ParseExact(PUBLIC_HEADER, token, body, footer);
      assert body[..|body| - 64] == payload && body[|body| - 64..] == sig;
    }
  }

  /** Whenever signing succeeds, verification with the matching key returns the payload and footer. */
  lemma PublicRoundTrip(s: Signer, payload: bytes, secret: bytes, public: bytes, footer: bytes, implicit: bytes)
    requires s.Matching(secret, public)
    ensures var token := SignPublic(s, payload, secret, footer, implicit);
            token.Ok? ==> VerifyPublic(s, token.value, public, implicit) == Ok((payload, footer))
  {
    hide PublicMessage, PublicToken, VerifyPublic;
    var sig := s.sign(secret, PublicMessage(payload, footer, implicit));
    if sig.Some? {
      assert TokenOrTwin(PublicToken(payload, sig.value, footer), PublicToken(payload, sig.value, footer), footer);
      PublicTokenExact(s, PublicToken(payload, sig.value, footer), public, implicit, payload, footer);
    }
  }

  /** The signed message determines payload, footer and implicit assertion. */
  lemma PublicMessageInjective(p: bytes, f: bytes, i: bytes, p': bytes, f': bytes, i': bytes)
    requires |p| < U64 && |f| < U64 && |i| < U64 && |p'| < U64 && |f'| < U64 && |i'| < U64
    requires PublicMessage(p, f, i) == PublicMessage(p', f', i')
    ensures p == p' && f == f' && i == i'
  {
    hide Pae, PUBLIC_HEADER;
    HeaderLength();
    var a, b := [PUBLIC_HEADER, p, f, i], [PUBLIC_HEADER, p', f', i'];
    PaeInjective(a, b);
    assert a[1] == b[1] && a[2] == b[2] && a[3] == b[3];
  }
}
