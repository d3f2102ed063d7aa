/** OpenSSH public keys to PEM (`ssh_to_pem` of src/crypto_parsing.rs). */
module Ssh {
  import opened Base64
  import opened Bytes
  import opened KeyFormats
  import Kdf
  import KeyDispatch
  import Pem

  /** What a call comes to: a value, an error, or the panic of a subtraction that underflows. */
  datatype Outcome<+T, +E> = Done(value: T) | Failed(error: E) | Panics

  datatype SshError =
    | NotUtf8 | TooFewWords | InvalidBase64 | Truncated | BadKeyLength | UnsupportedSshCurve | UnsupportedSshKey

  // ---------- words and length-prefixed strings ----------

  function WordLength(s: bytes): (n: nat)
    ensures n <= |s|
  {
    if s == [] || Pem.IsSpace(s[0]) then 0 else 1 + WordLength(s[1..])
  }

  /** `str::split_whitespace` */
  function Words(s: bytes): seq<bytes>
    decreases |s|
  {
    if s == [] then []
    else if Pem.IsSpace(s[0]) then Words(s[1..])
    else [s[..WordLength(s)]] + Words(s[WordLength(s)..])
  }

  /** A 32-bit length and that many bytes: the string, and what follows it. */
  function ReadString(s: bytes): Option<(bytes, bytes)> {
    if |s| < 4 then None
    else
      var len := FromBE(s[..4]);
      if |s| - 4 < len then None else Some((s[4..4 + len], s[4 + len..]))
  }

  const SSH_RSA: bytes := B("ssh-rsa")
  const SSH_ED25519: bytes := B("ssh-ed25519")
  const SSH_ECDSA: bytes := B("ecdsa-sha2-")

  function SshCurve(name: bytes): Option<Curve> {
    if name == B("nistp256") then Some(P256)
    else if name == B("nistp384") then Some(P384)
    else if name == B("nistp521") then Some(P521)
    else None
  }

  // ---------- the conversion ----------

  /** e and n are handed to `encode_der_int` as they are read; on an empty slice it computes 0 - 1. */
  function ConvertRsa(cursor: bytes): Outcome<bytes, SshError> {
    var e := ReadString(cursor);
    if e == None then Failed(Truncated)
    else
      var n := ReadString(e.value.1);
      if n == None then Failed(Truncated)
      else if n.value.0 == [] || e.value.0 == [] then Panics
      else Done(Pem.PemText(B("RSA PUBLIC KEY"), RsaPublicDer(FromBE(n.value.0), FromBE(e.value.0))))
  }

  function ConvertEd25519(cursor: bytes): Outcome<bytes, SshError> {
    var key := ReadString(cursor);
    if key == None then Failed(Truncated)
    else if |key.value.0| != 32 then Failed(BadKeyLength)
    else Done(Pem.PemText(B("PUBLIC KEY"), KeyDispatch.SpkiOkp(OID_ED25519, key.value.0)))
  }

  function ConvertEcdsa(cursor: bytes): Outcome<bytes, SshError> {
    var id := ReadString(cursor);
    if id == None then Failed(Truncated)
    else
      var q := ReadString(id.value.1);
      if q == None then Failed(Truncated)
      else if SshCurve(id.value.0) == None then Failed(UnsupportedSshCurve)
      else Done(Pem.PemText(B("PUBLIC KEY"), KeyDispatch.SpkiEc(SshCurve(id.value.0).value, q.value.0)))
  }

  /** `ssh_to_pem`, where `utf8` decides whether bytes are valid UTF-8 */
  function SshToPem(data: bytes, utf8: bytes -> bool): Outcome<bytes, SshError> {
    var words := Words(data);
    if !utf8(data) then Failed(NotUtf8)
    else if |words| < 2 then Failed(TooFewWords)
    else
      var decoded := Decode(STANDARD, words[1]);
      if decoded == None then Failed(InvalidBase64)
      else
        var header := ReadString(decoded.value);
        if header == None then Failed(Truncated)
        else if words[0] == SSH_RSA && header.value.0 == SSH_RSA then ConvertRsa(header.value.1)
        else if words[0] == SSH_ED25519 && header.value.0 == SSH_ED25519 then ConvertEd25519(header.value.1)
        else if SSH_ECDSA <= words[0] then ConvertEcdsa(header.value.1)
        else Failed(UnsupportedSshKey)
  }

  // ---------- well-formed keys ----------

  /** A key line: its type, a space, the encoded blob, and a comment or nothing. */
  function KeyLine(kind: bytes, blob: bytes, comment: bytes): bytes {
    kind + [32] + Encode(STANDARD, blob) + comment
  }

  predicate IsWord(w: bytes) {
    w != [] && forall i :: 0 <= i < |w| ==> !Pem.IsSpace(w[i])
  }

  predicate IsComment(c: bytes) {
    c == [] || Pem.IsSpace(c[0])
  }

  lemma {:induction false} WordLengthOf(w: bytes, rest: bytes)
    requires (forall i :: 0 <= i < |w| ==> !Pem.IsSpace(w[i])) && IsComment(rest)
    ensures WordLength(w + rest) == |w|
  {
    if w == [] {
      assert w + rest == rest;
    } else {
      WordLengthOf(w[1..], rest);
      assert (w + rest)[1..] == w[1..] + rest;
    }
  }

  lemma WordsCons(w: bytes, rest: bytes)
    requires IsWord(w) && IsComment(rest)
    ensures Words(w + rest) == [w] + Words(rest)
  {
    WordLengthOf(w, rest);
    assert (w + rest)[..|w|] == w && (w + rest)[|w|..] == rest;
  }

  lemma EncodedIsWord(blob: bytes)
    requires blob != []
    ensures IsWord(Encode(STANDARD, blob))
  {
    Pem.EncodedSymbols(blob);
    Pem.SymbolsPlain(Encode(STANDARD, blob));
    RoundTrip(STANDARD, blob);
    assert Decode(STANDARD, []) == Some([]);
  }

  lemma LineWords(kind: bytes, blob: bytes, comment: bytes)
    requires IsWord(kind) && blob != [] && IsComment(comment)
    ensures var words := Words(KeyLine(kind, blob, comment));
            |words| >= 2 && words[0] == kind && words[1] == Encode(STANDARD, blob)
  {
    hide Encode;
    var text := Encode(STANDARD, blob);
    EncodedIsWord(blob);
    assert KeyLine(kind, blob, comment) == kind + ([32] + (text + comment));
    WordsCons(kind, [32] + (text + comment));
    assert ([32] + (text + comment))[1..] == text + comment;
    WordsCons(text, comment);
  }

  lemma StringReadsBack(x: bytes, rest: bytes)
    requires |x| < 0x1_0000_0000
    ensures ReadString(Kdf.Sized(x) + rest) == Some((x, rest))
  {
    var s := Kdf.Sized(x) + rest;
    assert s[..4] == FixedBE(|x|, 4);
    FromFixedBE(|x|, 4);
    Kdf.Width4();
    ModUnique(|x|, 0x1_0000_0000, 0, |x|);
    assert s[4..4 + |x|] == x && s[4 + |x|..] == rest;
  }

  lemma KindsAreWords()
    ensures IsWord(SSH_RSA) && IsWord(SSH_ED25519) && |SSH_RSA| == 7 && |SSH_ED25519| == 11 && |SSH_ECDSA| == 11
    ensures !(SSH_ECDSA <= SSH_RSA) && !(SSH_ECDSA <= SSH_ED25519)
  {
    assert SSH_ED25519[0] != SSH_ECDSA[0];
  }

  /** The blob of an RSA key: its type, exponent and modulus, and whatever follows. */
  function RsaBlob(e: bytes, n: bytes, extra: bytes): bytes {
    Kdf.Sized(SSH_RSA) + (Kdf.Sized(e) + (Kdf.Sized(n) + extra))
  }

  /**
   Converting an RSA key is defined exactly when exponent and modulus are non-empty, whatever their leading zeros;
   then it prints the RSAPublicKey of their values.
   */
  lemma RsaLineConverts(e: bytes, n: bytes, extra: bytes, comment: bytes, utf8: bytes -> bool)
    requires |e| < 0x1_0000_0000 && |n| < 0x1_0000_0000 && IsComment(comment)
    requires utf8(KeyLine(SSH_RSA, RsaBlob(e, n, extra), comment))
    ensures var r := SshToPem(KeyLine(SSH_RSA, RsaBlob(e, n, extra), comment), utf8);
            (r == Panics <==> e == [] || n == []) &&
            (r != Panics ==> r == Done(Pem.PemText(B("RSA PUBLIC KEY"), RsaPublicDer(FromBE(n), FromBE(e)))))
  {
    hide Encode, Decode, Words, ReadString, B, RsaPublicDer, Kdf.Sized;
    KindsAreWords();
    var blob := RsaBlob(e, n, extra);
    StringReadsBack(SSH_RSA, Kdf.Sized(e) + (Kdf.Sized(n) + extra));
    StringReadsBack(e, Kdf.Sized(n) + extra);
    StringReadsBack(n, extra);
    SizedNotEmpty(SSH_RSA);
    LineWords(SSH_RSA, blob, comment);
    RoundTrip(STANDARD, blob);
  }

  lemma SizedNotEmpty(x: bytes)
    ensures Kdf.Sized(x) != []
  {
  }

  /** A key line without an exponent, on which the conversion panics. */
  lemma EmptyExponentPanics(n: bytes, utf8: bytes -> bool) returns (line: bytes)
    requires |n| < 0x1_0000_0000 && utf8(KeyLine(SSH_RSA, RsaBlob([], n, []), []))
    ensures SshToPem(line, utf8) == Panics
  {
    line := KeyLine(SSH_RSA, RsaBlob([], n, []), []);
    RsaLineConverts([], n, [], [], utf8);
  }

  /** The blob of an Ed25519 key. */
  function Ed25519Blob(key: bytes, extra: bytes): bytes {
    Kdf.Sized(SSH_ED25519) + (Kdf.Sized(key) + extra)
  }

  lemma Ed25519LineConverts(key: bytes, extra: bytes, comment: bytes, utf8: bytes -> bool)
    requires |key| < 0x1_0000_0000 && IsComment(comment)
    requires utf8(KeyLine(SSH_ED25519, Ed25519Blob(key, extra), comment))
    ensures SshToPem(KeyLine(SSH_ED25519, Ed25519Blob(key, extra), comment), utf8)
         == if |key| == 32 then Done(Pem.PemText(B("PUBLIC KEY"), KeyDispatch.SpkiOkp(OID_ED25519, key)))
            else Failed(BadKeyLength)
  {
    hide Encode, Decode, Words, ReadString, B, KeyDispatch.SpkiOkp, Kdf.Sized;
    KindsAreWords();
    var blob := Ed25519Blob(key, extra);
    StringReadsBack(SSH_ED25519, Kdf.Sized(key) + extra);
    StringReadsBack(key, extra);
    SizedNotEmpty(SSH_ED25519);
    LineWords(SSH_ED25519, blob, comment);
    RoundTrip(STANDARD, blob);
  }

  /** The blob of an ECDSA key: a name nobody looks at, the curve and the point. */
  function EcdsaBlob(name: bytes, curve: bytes, point: bytes, extra: bytes): bytes {
    Kdf.Sized(name) + (Kdf.Sized(curve) + (Kdf.Sized(point) + extra))
  }

  /** The curve is the one named inside the blob, whatever the line's own type says after its prefix. */
  lemma EcdsaLineConverts(suffix: bytes, name: bytes, curve: bytes, point: bytes, extra: bytes, comment: bytes,
                          utf8: bytes -> bool)
    requires |name| < 0x1_0000_0000 && |curve| < 0x1_0000_0000 && |point| < 0x1_0000_0000
    requires IsComment(comment) && IsWord(SSH_ECDSA + suffix)
    requires utf8(KeyLine(SSH_ECDSA + suffix, EcdsaBlob(name, curve, point, extra), comment))
    ensures SshToPem(KeyLine(SSH_ECDSA + suffix, EcdsaBlob(name, curve, point, extra), comment), utf8)
         == if SshCurve(curve).Some? then
            Done(Pem.PemText(B("PUBLIC KEY"), KeyDispatch.SpkiEc(SshCurve(curve).value, point)))
            else Failed(UnsupportedSshCurve)
  {
    hide Encode, Decode, Words, ReadString, B, KeyDispatch.SpkiEc, SshCurve, Kdf.Sized;
    var kind := SSH_ECDSA + suffix;
    var blob := EcdsaBlob(name, curve, point, extra);
    EcdsaKind(suffix);
    StringReadsBack(name, Kdf.Sized(curve) + (Kdf.Sized(point) + extra));
    StringReadsBack(curve, Kdf.Sized(point) + extra);
    StringReadsBack(point, extra);
    SizedNotEmpty(name);
    LineWords(kind, blob, comment);
    RoundTrip(STANDARD, blob);
  }

  lemma EcdsaKind(suffix: bytes)
    ensures SSH_ECDSA <= SSH_ECDSA + suffix && SSH_ECDSA + suffix != SSH_RSA && SSH_ECDSA + suffix != SSH_ED25519
  {
    assert (SSH_ECDSA + suffix)[0] == 101 && SSH_RSA[0] == 115 && SSH_ED25519[0] == 115;
  }
}
