/**
 The PASERK functions of src/paseto.rs as the code performs them: buffers extended step by step, each proved
 to compute the texts of module Paserk.
 */
module PaserkCode {
  import opened Bytes
  import opened Paserk
  import opened Paseto
  import Base64
  import Text

  // ---------- encode_paserk ----------

  method PieKeySchedule(c: Crypto, wk: bytes, n: bytes) returns (ek: bytes, n2: bytes, ak: bytes)
    requires c.Laws()
    ensures (ek, n2, ak) == PieKeys(c, wk, n)
  {
    var msg80: bytes := [0x80];
    msg80 := msg80 + n;
    var x := c.mac(wk, msg80, 56);
    ek, n2 := x[0..32], x[32..56];
    assert ek == x[..32] && n2 == x[32..];
    var msg81: bytes := [0x81];
    msg81 := msg81 + n;
    ak := c.mac(wk, msg81, 32);
  }

  method WrapWithPie(c: Crypto, header: bytes, wk: bytes, n: bytes, ptk: bytes) returns (out: bytes)
    requires c.Laws()
    ensures out == PieFrame(c, header, wk, n, ptk)
  {
    var ek, n2, ak := PieKeySchedule(c, wk, n);
    var ct := ptk;
    ct := c.stream(ek, n2, ct);
    var msg := header;
    msg := msg + n;
    msg := msg + ct;
    var t := c.mac(ak, msg, 32);
    out := t;
    out := out + n;
    out := out + ct;
    assert out == t + (n + ct);
  }

  method UnwrapWithPie(c: Crypto, header: bytes, wk: bytes, data: bytes) returns (res: Option<bytes>)
    requires c.Laws()
    ensures res == OpenPie(c, header, wk, data)
  {
    hide PieKeys;
    if |data| < 64 {
      return None;
    }
    var t, n, ct := data[0..32], data[32..64], data[64..];
    assert t == data[..32];
    var ek, n2, ak := PieKeySchedule(c, wk, n);
    var msg := header;
    msg := msg + n;
    msg := msg + ct;
    var t2 := c.mac(ak, msg, 32);
    if t2 != t {
      return None;
    }
    var ptk := ct;
    ptk := c.stream(ek, n2, ptk);
    return Some(ptk);
  }

  method WrapWithStretchedKey(p: Primitives, header: bytes, k: bytes, q: PbkwParams, ptk: bytes) returns (out: bytes)
    requires p.Laws()
    ensures out == PbkwFrame(p, header, k, q, ptk)
  {
    hide FixedBE;
    var ekMsg: bytes := [0xff];
    ekMsg := ekMsg + k;
    var ek := p.c.hash(ekMsg, 32);
    var akMsg: bytes := [0xfe];
    akMsg := akMsg + k;
    var ak := p.c.hash(akMsg, 32);
    var edk := ptk;
    edk := p.c.stream(ek, q.nonce, edk);
    var preAuth := AppendParams(header, q);
    preAuth := preAuth + edk;
    assert preAuth == header + (q.Text() + edk);
    var t := p.c.mac(ak, preAuth, 32);
    out := AppendParams([], q);
    out := out + edk;
    out := out + t;
    assert out == q.Text() + (edk + t);
  }

  /** salt, memory limit, passes, lanes and nonce, one after the other */
  method AppendParams(buffer: bytes, q: PbkwParams) returns (out: bytes)
    ensures out == buffer + q.Text()
  {
    hide FixedBE;
    out := buffer;
    out := out + q.salt;
    out := out + FixedBE(q.mem, 8);
    out := out + FixedBE(q.time, 4);
    out := out + FixedBE(q.para, 4);
    out := out + q.nonce;
  }

  method EncodeWithPassword(p: Primitives, purpose: bytes, key: bytes, pw: bytes, r: Draws)
      returns (res: Result<bytes, PaserkError>)
    requires p.Laws()
    ensures res == EncodePw(p, purpose, key, pw, r)
  {
    hide B, Base64.Encode, PbkwFrame;
    var header := PwHeader(purpose);
    if r.salt == None {
      return Err(NoEntropy);
    }
    var k := p.argon2(pw, r.salt.value, MEM_KIB, 2, 1);
    if k == None {
      return Err(Argon2Failed);
    }
    if r.nonce == None {
      return Err(NoEntropy);
    }
    var out := WrapWithStretchedKey(p, header, k.value, PbkwParams(r.salt.value, MEM_KIB * 1024, 2, 1, r.nonce.value),
                                    key);
    return Ok(header + B64(out));
  }

  method SealKeySchedule(c: Crypto, xk: bytes, epk: bytes, xpk: bytes) returns (ek: bytes, n: bytes, ak: bytes)
    ensures (ek, n, ak) == SealKeys(c, xk, epk, xpk)
  {
    hide B;
    var ekMsg: bytes := [0x01];
    ekMsg := ekMsg + SEAL_HEADER;
    ekMsg := ekMsg + xk;
    ekMsg := ekMsg + epk;
    ekMsg := ekMsg + xpk;
    ek := c.hash(ekMsg, 32);
    var akMsg: bytes := [0x02];
    akMsg := akMsg + SEAL_HEADER;
    akMsg := akMsg + xk;
    akMsg := akMsg + epk;
    akMsg := akMsg + xpk;
    ak := c.hash(akMsg, 32);
    var nMsg := epk;
    nMsg := nMsg + xpk;
    n := c.hash(nMsg, 24);
  }

  method EncodeSealed(p: Primitives, key: bytes, sealing: bytes, r: Draws) returns (res: Result<bytes, PaserkError>)
    ensures res == EncodeSeal(p, key, sealing, r)
  {
    hide B, Base64.Encode, SealKeys;
    var xpk := p.x25519Extract(sealing);
    if xpk == None {
      return Err(X25519Failed);
    }
    if r.esk == None {
      return Err(NoEntropy);
    }
    var esk := r.esk.value;
    var epk := p.x25519Public(esk);
    if epk == None {
      return Err(X25519Failed);
    }
    var xk := p.x25519Derive(esk, xpk.value);
    if xk == None {
      return Err(X25519Failed);
    }
    var ek, n, ak := SealKeySchedule(p.c, xk.value, epk.value, xpk.value);
    var edk := key;
    edk := p.c.stream(ek, n, edk);
    var preAuth := SEAL_HEADER;
    preAuth := preAuth + epk.value;
    preAuth := preAuth + edk;
    var t := p.c.mac(ak, preAuth, 32);
    var out := t;
    out := out + epk.value;
    out := out + edk;
    assert out == t + (epk.value + edk);
    return Ok(SEAL_HEADER + B64(out));
  }

  /** `encode_paserk` */
  method EncodePaserk(p: Primitives, purpose: bytes, keyBytes: bytes, wk: Option<bytes>, pw: Option<bytes>,
                      sealing: Option<bytes>, r: Draws) returns (res: Result<bytes, PaserkError>)
    requires p.Laws()
    ensures res == Encoded(p, purpose, keyBytes, wk, pw, sealing, r)
  {
    hide B, Base64.Encode, PieFrame, EncodePw, EncodeSeal;
    if wk.Some? && pw.Some? {
      return Err(Conflict);
    }
    if purpose == B("public") && (wk.Some? || pw.Some?) {
      return Err(PublicWrapped);
    }
    var key := keyBytes;
    if purpose == B("local") || purpose == B("public") {
      if |key| != 32 {
        return Err(BadKeyLength);
      }
    } else if purpose == B("secret") {
      if |key| == 32 {
        var public := p.ed25519(key);
        if public == None {
          return Err(Ed25519Failed);
        }
        key := key + public.value;
      } else if |key| != 64 {
        return Err(BadKeyLength);
      }
    } else {
      return Err(BadPurpose);
    }
    if pw.Some? {
      res := EncodeWithPassword(p, purpose, key, pw.value, r);
      return;
    }
    if sealing.Some? {
      if purpose != B("local") {
        return Err(SealNotLocal);
      }
      res := EncodeSealed(p, key, sealing.value, r);
      return;
    }
    if wk.Some? {
      if |wk.value| != 32 {
        return Err(BadWrappingKey);
      }
      if r.wrapNonce == None {
        return Err(NoEntropy);
      }
      var out := WrapWithPie(p.c, PieHeader(purpose), wk.value, r.wrapNonce.value, key);
      return Ok(PieHeader(purpose) + B64(out));
    }
    return Ok(PlainHeader(purpose) + B64(key));
  }

  // ---------- decode_paserk ----------

  method UnwrapWithPassword(p: Primitives, header: bytes, pw: bytes, minimum: nat, d: bytes)
      returns (res: Result<bytes, PaserkError>)
    requires p.Laws() && minimum >= 88
    ensures res == OpenPbkw(p, header, pw, minimum, d)
  {
    hide FromBE;
    if |d| < minimum {
      return Err(UnwrapFailed);
    }
    var salt, mem, time, para, n := d[0..16], d[16..24], d[24..28], d[28..32], d[32..56];
    var edk, t := d[56..|d| - 32], d[|d| - 32..];
    assert salt == d[..16];
    var costKib := FromBE(mem) / 1024 % U32;
    var k := p.argon2(pw, salt, costKib, FromBE(time), FromBE(para));
    if k == None {
      return Err(Argon2Failed);
    }
    var akMsg: bytes := [0xfe];
    akMsg := akMsg + k.value;
    var ak := p.c.hash(akMsg, 32);
    var preAuth := header;
    preAuth := preAuth + salt;
    preAuth := preAuth + mem;
    preAuth := preAuth + time;
    preAuth := preAuth + para;
    preAuth := preAuth + n;
    preAuth := preAuth + edk;
    ParamsOnTheWire(d);
    SevenParts(header, salt, mem, time, para, n, edk);
    var t2 := p.c.mac(ak, preAuth, 32);
    if t != t2 {
      return Err(UnwrapFailed);
    }
    var ekMsg: bytes := [0xff];
    ekMsg := ekMsg + k.value;
    var ek := p.c.hash(ekMsg, 32);
    var ptk := edk;
    ptk := p.c.stream(ek, n, ptk);
    return Ok(ptk);
  }

  lemma ParamsOnTheWire(d: bytes)
    requires |d| >= 56
    ensures d[0..16] + (d[16..24] + (d[24..28] + (d[28..32] + d[32..56]))) == d[..56]
  {
  }

  lemma SevenParts(h: bytes, a: bytes, b: bytes, c: bytes, d: bytes, e: bytes, f: bytes)
    ensures h + a + b + c + d + e + f == h + ((a + (b + (c + (d + e)))) + f)
  {
  }

  method UnsealKey(p: Primitives, xsk: bytes, data: bytes) returns (res: Result<bytes, PaserkError>)
    ensures res == OpenSeal(p, xsk, data)
  {
    hide B, SealKeys;
    if |data| < 96 {
      return Err(UnwrapFailed);
    }
    var t, epk, edk := data[0..32], data[32..64], data[64..];
    assert t == data[..32];
    var xpk := p.x25519Public(xsk);
    if xpk == None {
      return Err(X25519Failed);
    }
    var xk := p.x25519Derive(xsk, epk);
    if xk == None {
      return Err(X25519Failed);
    }
    var ek, n, ak := SealKeySchedule(p.c, xk.value, epk, xpk.value);
    var preAuth := SEAL_HEADER;
    preAuth := preAuth + epk;
    preAuth := preAuth + edk;
    var t2 := p.c.mac(ak, preAuth, 32);
    if t != t2 {
      return Err(UnwrapFailed);
    }
    var ptk := edk;
    ptk := p.c.stream(ek, n, ptk);
    return Ok(ptk);
  }

  /** `decode_paserk` */
  method DecodePaserk(p: Primitives, paserk: bytes, purpose: Option<bytes>, wk: Option<bytes>, pw: Option<bytes>,
                      unsealing: Option<bytes>) returns (res: Result<bytes, PaserkError>)
    requires p.Laws()
    ensures res == Decoded(p, paserk, purpose, wk, pw, unsealing)
  {
    hide B, Text.SplitDots, Base64.Decode, OpenPie, OpenPbkw, OpenSeal, PieHeader, PwHeader;
    if wk.Some? && pw.Some? {
      return Err(Conflict);
    }
    var parts := Text.SplitDots(paserk);
    if |parts| < 3 || |parts| > 4 {
      return Err(Malformed);
    }
    if parts[0] != B("k4") {
      return Err(BadVersion);
    }
    var wrap, pass := WrappedPurpose(parts[1], B("-wrap")), WrappedPurpose(parts[1], B("-pw"));
    if wrap.Some? {
      if |parts| != 4 || parts[2] != B("pie") {
        return Err(Malformed);
      }
      if purpose.Some? && purpose.value != wrap.value {
        return Err(WrongType);
      }
      var data :- DecodePart(parts[3]);
      if wk == None {
        return Err(UnwrapFailed);
      }
      if |wk.value| != 32 {
        return Err(BadWrappingKey);
      }
      var ptk := UnwrapWithPie(p.c, PieHeader(wrap.value), wk.value, data);
      return if ptk == None then Err(UnwrapFailed) else Ok(ptk.value);
    } else if pass.Some? {
      if |parts| != 3 {
        return Err(Malformed);
      }
      if purpose.Some? && purpose.value != pass.value {
        return Err(WrongType);
      }
      if pw == None {
        return Err(NeedsPassword);
      }
      var data :- DecodePart(parts[2]);
      res := UnwrapWithPassword(p, PwHeader(pass.value), pw.value, 120, data);
      return;
    } else if parts[1] == B("seal") {
      if unsealing == None {
        return Err(NeedsUnsealingKey);
      }
      var xsk := p.x25519Extract(unsealing.value);
      if xsk == None {
        return Err(X25519Failed);
      }
      var data :- DecodePart(parts[2]);
      res := UnsealKey(p, xsk.value, data);
      return;
    } else {
      if |parts| != 3 {
        return Err(Malformed);
      }
      if wk.Some? || pw.Some? {
        return Err(WrongType);
      }
      if purpose.Some? {
        if purpose.value != parts[1] {
          return Err(WrongType);
        }
      } else if parts[1] != B("local") && parts[1] != B("public") && parts[1] != B("secret") {
        return Err(WrongType);
      }
      res := DecodePart(parts[2]);
    }
  }

  // ---------- the stand-alone wrapping functions ----------

  method PaserkWrapPie(c: Crypto, wk: bytes, target: bytes, purpose: bytes, nonce: Option<bytes>)
      returns (res: Result<bytes, PaserkError>)
    requires c.Laws() && (IsWrappable(purpose) && nonce.Some? ==> |wk| <= KEY_LIMIT)
    ensures res == WrapPie(c, wk, target, purpose, nonce)
  {
    hide B, Base64.Encode, PieFrame;
    if purpose != B("local") && purpose != B("secret") {
      return Err(BadPurpose);
    }
    var header := PieHeader(purpose);
    if nonce == None {
      return Err(NoEntropy);
    }
    var out := WrapWithPie(c, header, wk, nonce.value, target);
    return Ok(header + B64(out));
  }

  method PaserkUnwrapPie(c: Crypto, wk: bytes, paserk: bytes) returns (res: Result<bytes, PaserkError>)
    requires c.Laws() && (PieData(paserk).Some? && |PieData(paserk).value.1| >= 64 ==> |wk| <= KEY_LIMIT)
    ensures res == UnwrapPie(c, wk, paserk)
  {
    hide Base64.Decode, OpenPie;
    assert |PieHeader(B("local"))| == 18 && |PieHeader(B("secret"))| == 19;
    hide B, PieHeader;
    var header, b64Data: bytes;
    if PieHeader(B("local")) <= paserk {
      header, b64Data := PieHeader(B("local")), paserk[18..];
    } else if PieHeader(B("secret")) <= paserk {
      header, b64Data := PieHeader(B("secret")), paserk[19..];
    } else {
      return Err(Malformed);
    }
    var data :- DecodePart(b64Data);
    var ptk := UnwrapWithPie(c, header, wk, data);
    return if ptk == None then Err(UnwrapFailed) else Ok(ptk.value);
  }

  method PaserkWrapPbkw(p: Primitives, pw: bytes, target: bytes, purpose: bytes, mem: nat, time: nat, para: nat,
                        r: Draws)
      returns (res: Result<bytes, PaserkError>)
    requires p.Laws() && mem < U64 && time < U32 && para < U32
    ensures res == WrapPbkw(p, pw, target, purpose, mem, time, para, r)
  {
    hide B, Base64.Encode, PbkwFrame;
    if purpose != B("local") && purpose != B("secret") {
      return Err(BadPurpose);
    }
    var header := PwHeader(purpose);
    if r.salt == None || r.nonce == None {
      return Err(NoEntropy);
    }
    var psk := p.argon2(pw, r.salt.value, mem / 1024 % U32, time, para);
    if psk == None {
      return Err(Argon2Failed);
    }
    var out := WrapWithStretchedKey(p, header, psk.value, PbkwParams(r.salt.value, mem, time, para, r.nonce.value),
                                    target);
    return Ok(header + B64(out));
  }

  method PaserkUnwrapPbkw(p: Primitives, pw: bytes, paserk: bytes) returns (res: Result<bytes, PaserkError>)
    requires p.Laws()
    ensures res == UnwrapPbkw(p, pw, paserk)
  {
    hide Base64.Decode, OpenPbkw;
    assert |PwHeader(B("local"))| == 12 && |PwHeader(B("secret"))| == 13;
    hide B, PwHeader;
    var header, b64Data: bytes;
    if PwHeader(B("local")) <= paserk {
      header, b64Data := PwHeader(B("local")), paserk[12..];
    } else if PwHeader(B("secret")) <= paserk {
      header, b64Data := PwHeader(B("secret")), paserk[13..];
    } else {
      return Err(Malformed);
    }
    var data :- DecodePart(b64Data);
    res := UnwrapWithPassword(p, header, pw, 88, data);
  }
}
