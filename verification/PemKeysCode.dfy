/** `ssh_to_pem` and `pem_to_jwk` as the code performs them: a cursor read piece by piece, buffers pushed into. */
module PemKeysCode {
  import opened Bytes
  import opened KeyFormats
  import opened PemKeys
  import opened Ssh
  import Base64
  import Der
  import DerCode
  import Json
  import KeyCode
  import KeyDispatch
  import Pem

  /** The `cursor` over the decoded key blob. */
  class SshCursor {
    var rest: bytes

    constructor (blob: bytes)
      ensures rest == blob
    {
      rest := blob;
    }

    /** The closure `read_string`: past a length that is too long the cursor stays behind the length. */
    method ReadString() returns (res: Result<bytes, SshError>)
      modifies this
      ensures Ssh.ReadString(old(rest)) == None <==> res == Err(Truncated)
      ensures res.Ok? ==> Ssh.ReadString(old(rest)) == Some((res.value, rest))
      ensures res.Err? ==> res.error == Truncated && rest == if |old(rest)| < 4 then old(rest) else old(rest)[4..]
    {
      if |rest| < 4 {
        return Err(Truncated);
      }
      var len := FromBE(rest[0..4]);
      assert rest[0..4] == rest[..4];
      rest := rest[4..];
      if |rest| < len {
        return Err(Truncated);
      }
      var val := rest[0..len];
      rest := rest[len..];
      assert val == old(rest)[4..4 + len] && rest == old(rest)[4 + len..];
      return Ok(val);
    }
  }

  method SpkiOfEd25519(key: bytes) returns (der: bytes)
    requires |key| == 32
    ensures der == KeyDispatch.SpkiOkp(OID_ED25519, key)
  {
    var algId: bytes := [0x06, 0x03, 0x2b, 0x65, 0x70];
    var bits: bytes := [0x03, 0x21, 0x00];
    bits := bits + key;
    assert bits == BitString(key);
    assert algId == OidTlv(OID_ED25519);
    var spki := DerCode.EncodeDerSequence(algId);
    spki := spki + bits;
    der := DerCode.EncodeDerSequence(spki);
  }

  method SpkiOfEcdsa(c: Curve, q: bytes) returns (der: bytes)
    ensures der == KeyDispatch.SpkiEc(c, q)
  {
    hide OidTlv, BitString;
    var algo := OidTlv(OID_EC);
    algo := algo + OidTlv(c.Oid());
    var algoSeq := DerCode.EncodeDerSequence(algo);
    var bits := KeyCode.PrintBitString(q);
    var spki := algoSeq;
    spki := spki + bits;
    der := DerCode.EncodeDerSequence(spki);
  }

  method RsaPublicOf(n: bytes, e: bytes) returns (der: bytes)
    requires n != [] && e != []
    ensures der == RsaPublicDer(FromBE(n), FromBE(e))
  {
    hide Der.IntTlv;
    var fields := new DerCode.ByteVec();
    fields.EncodeDerInt(n);
    fields.EncodeDerInt(e);
    assert fields.data == Der.IntTlv(FromBE(n)) + Der.IntTlv(FromBE(e));
    der := DerCode.EncodeDerSequence(fields.data);
  }

  function AsOutcome<T, E>(r: Result<T, E>): Outcome<T, E> {
    if r.Ok? then Done(r.value) else Failed(r.error)
  }

  /** `ssh_to_pem`, on the lines for which it does not panic */
  method SshToPem(data: bytes, utf8: bytes -> bool) returns (res: Result<bytes, SshError>)
    requires Ssh.SshToPem(data, utf8) != Panics
    ensures AsOutcome(res) == Ssh.SshToPem(data, utf8)
  {
    hide B, Words, Base64.Decode, Ssh.ReadString, SshCurve, Pem.PemText, RsaPublicDer;
    hide KeyDispatch.SpkiOkp, KeyDispatch.SpkiEc;
    if !utf8(data) {
      return Err(NotUtf8);
    }
    var parts := Words(data);
    if |parts| < 2 {
      return Err(TooFewWords);
    }
    var decoded := Base64.Decode(Base64.STANDARD, parts[1]);
    if decoded == None {
      return Err(InvalidBase64);
    }
    var cursor := new SshCursor(decoded.value);
    var header := cursor.ReadString();
    if header.Err? {
      return Err(Truncated);
    }
    if parts[0] == SSH_RSA && header.value == SSH_RSA {
      var e := cursor.ReadString();
      if e.Err? {
        return Err(Truncated);
      }
      var n := cursor.ReadString();
      if n.Err? {
        return Err(Truncated);
      }
      var der := RsaPublicOf(n.value, e.value);
      var pem := Pem.ToPem(B("RSA PUBLIC KEY"), der);
      return Ok(pem);
    } else if parts[0] == SSH_ED25519 && header.value == SSH_ED25519 {
      var key := cursor.ReadString();
      if key.Err? {
        return Err(Truncated);
      }
      if |key.value| != 32 {
        return Err(BadKeyLength);
      }
      var der := SpkiOfEd25519(key.value);
      var pem := Pem.ToPem(B("PUBLIC KEY"), der);
      return Ok(pem);
    } else if SSH_ECDSA <= parts[0] {
      var id := cursor.ReadString();
      if id.Err? {
        return Err(Truncated);
      }
      var q := cursor.ReadString();
      if q.Err? {
        return Err(Truncated);
      }
      var c := SshCurve(id.value);
      if c == None {
        return Err(UnsupportedSshCurve);
      }
      var der := SpkiOfEcdsa(c.value, q.value);
      var pem := Pem.ToPem(B("PUBLIC KEY"), der);
      return Ok(pem);
    }
    return Err(UnsupportedSshKey);
  }

  /** `pem_to_jwk`, on the texts for which it does not panic */
  method PemToJwk(s: bytes, utf8: bytes -> bool, ed25519: Ed25519) returns (res: Result<Json.Value, PemKeyError>)
    requires PemKeys.PemToJwk(s, utf8, ed25519) != Panics
    ensures AsOutcome(res) == PemKeys.PemToJwk(s, utf8, ed25519)
    decreases if SshLine(Pem.Trim(s)) then 1 else 0
  {
    hide Pem.Trim, Ssh.SshToPem, SshLine, Pem.PemDer, Dispatch, PublicLabel, PrivateLabel;
    if !utf8(s) {
      return Err(InvalidUtf8);
    }
    var trimmed := Pem.Trim(s);
    if SshLine(trimmed) {
      var pem := SshToPem(trimmed, utf8);
      if pem.Err? {
        return Err(FromSsh(pem.error));
      }
      ConvertedIsArmoured(trimmed, utf8);
      res := PemToJwk(pem.value, utf8, ed25519);
      return;
    }
    var der := Pem.PemDer(s);
    if der.Err? {
      return Err(FromArmour(der.error));
    }
    var j := KeyCode.DispatchDer(PublicLabel(s), PrivateLabel(s), der.value, ed25519);
    return if j.Ok? then Ok(j.value) else Err(UnknownKey);
  }
}
