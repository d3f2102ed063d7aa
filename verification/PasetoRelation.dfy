/**
 PASETO version 4 tokens as a relation over the library operations and the literal texts and lengths of the standard,
 without any function of module Paseto that builds or opens one; and the theorems that the four token operations of
 src/paseto.rs compute exactly this relation. Inputs are shorter than 2^64 bytes.
 */
module PasetoRelation {
  import opened Base64
  import opened Base64Bits
  import opened Bytes
  import opened Paseto
  import Text

  const LIMIT := 0x1_0000_0000_0000_0000

  /** header, body and, if there is a footer, a dot and the footer */
  predicate IsToken(token: bytes, header: bytes, body: bytes, footer: bytes) {
    token == header + Text64(body) + if footer == [] then [] else B(".") + Text64(footer)
  }

  /** A token, or one without a footer that a dot follows. */
  ghost predicate Readable(token: bytes, header: bytes, body: bytes, footer: bytes) {
    IsToken(token, header, body, footer) ||
    (footer == [] && exists t :: IsToken(t, header, body, footer) && token == t + B("."))
  }

  lemma ReadableIs(token: bytes, header: bytes, body: bytes, footer: bytes)
    ensures IsToken(token, header, body, footer) <==> token == TokenText(header, body, footer)
    ensures Readable(token, header, body, footer) <==> TokenOrTwin(token, TokenText(header, body, footer), footer)
  {
    hide Encode;
    assert B(".") == [Text.DOT];
    var f := if footer == [] then [] else B(".") + Text64(footer);
    assert header + Text64(body) + f == header + (Text64(body) + f);
    if TokenOrTwin(token, TokenText(header, body, footer), footer) {
      assert IsToken(TokenText(header, body, footer), header, body, footer);
    }
  }

  // ---------- v4.local ----------

  /**
   56 bytes of BLAKE2b under the key give the cipher key and nonce, 32 more the authentication key; the tag covers the
   string that reads as header, nonce, ciphertext, footer and assertion.
   */
  ghost predicate IsLocalBody(c: Crypto, key: bytes, payload: bytes, footer: bytes, implicit: bytes, nonce: bytes,
                              pre: bytes, body: bytes)
    requires c.Laws()
  {
    var x := c.mac(key, B("paseto-encryption-key") + nonce, 56);
    var ct := c.stream(x[..32], x[32..], payload);
    ReadPae(pre) == Some([B("v4.local."), nonce, ct, footer, implicit]) &&
    body == nonce + ct + c.mac(c.mac(key, B("paseto-auth-key-for-aead") + nonce, 32), pre, 32)
  }

  lemma LocalBodyIs(c: Crypto, key: bytes, payload: bytes, footer: bytes, implicit: bytes, nonce: bytes, body: bytes)
    requires c.Laws() && |nonce| == 32 && |payload| < LIMIT && |footer| < LIMIT && |implicit| < LIMIT
    ensures body == LocalBody(c, key, payload, footer, implicit, nonce)
       <==> exists pre :: IsLocalBody(c, key, payload, footer, implicit, nonce, pre, body)
  {
    hide B, Pae, ReadPae;
    var x := c.mac(key, B("paseto-encryption-key") + nonce, 56);
    var ct := c.stream(x[..32], x[32..], payload);
    var pieces := [B("v4.local."), nonce, ct, footer, implicit];
    var pre := LocalPreAuth(nonce, ct, footer, implicit);
    var tag := c.mac(c.mac(key, B("paseto-auth-key-for-aead") + nonce, 32), pre, 32);
    assert nonce + ct + tag == nonce + (ct + tag);
    PaeIff(pieces, pre);
    if body == LocalBody(c, key, payload, footer, implicit, nonce) {
      assert IsLocalBody(c, key, payload, footer, implicit, nonce, pre, body);
    }
    forall pre' | ReadPae(pre') == Some(pieces)
      ensures pre' == pre
    {
      PaeIff(pieces, pre');
    }
  }

  /** The caller's nonce of 32 bytes, or the random one. */
  predicate NonceIs(nonceOpt: Option<bytes>, random: Option<bytes>, nonce: bytes) {
    if nonceOpt.Some? then nonceOpt == Some(nonce) && |nonce| == 32 else random == Some(nonce)
  }

  /** `encrypt_v4_local` returns exactly the token of this body. */
  lemma SealIff(c: Crypto, payload: bytes, key: bytes, footer: bytes, implicit: bytes, nonceOpt: Option<bytes>,
                random: Option<bytes>, token: bytes)
    requires c.Laws() && (random.Some? ==> |random.value| == 32)
    requires |payload| < LIMIT && |footer| < LIMIT && |implicit| < LIMIT
    ensures SealLocalToken(c, payload, key, footer, implicit, nonceOpt, random) == Ok(token)
       <==> |key| == 32 && exists nonce, pre, body ::
              NonceIs(nonceOpt, random, nonce) && IsLocalBody(c, key, payload, footer, implicit, nonce, pre, body) &&
              IsToken(token, B("v4.local."), body, footer)
  {
    hide B, LocalBody, IsToken, TokenText, IsLocalBody;
    var n := ChooseNonce(nonceOpt, random);
    if n.Ok? && |key| == 32 {
      var body := LocalBody(c, key, payload, footer, implicit, n.value);
      ReadableIs(token, B("v4.local."), body, footer);
      LocalBodyIs(c, key, payload, footer, implicit, n.value, body);
      if nonce, pre, body' :|
          NonceIs(nonceOpt, random, nonce) && IsLocalBody(c, key, payload, footer, implicit, nonce, pre, body') &&
          IsToken(token, B("v4.local."), body', footer) {
        LocalBodyIs(c, key, payload, footer, implicit, nonce, body');
      }
    }
  }

  /** `decrypt_v4_local` returns payload and footer exactly for such a token. */
  lemma OpenIff(c: Crypto, token: bytes, key: bytes, implicit: bytes, payload: bytes, footer: bytes)
    requires c.Laws() && |payload| < LIMIT && |footer| < LIMIT && |implicit| < LIMIT
    ensures OpenLocalToken(c, token, key, implicit) == Ok((payload, footer))
       <==> |key| == 32 && exists nonce, pre, body ::
              |nonce| == 32 && IsLocalBody(c, key, payload, footer, implicit, nonce, pre, body) &&
              Readable(token, B("v4.local."), body, footer)
  {
    hide B, LocalBody, Readable, TokenText, IsLocalBody, OpenLocalToken;
    if |key| == 32 {
      LocalTokenExact(c, token, key, implicit, payload, footer);
      if nonce :| |nonce| == 32 && TokenOrTwin(token, LocalToken(c, key, payload, footer, implicit, nonce), footer) {
        var body := LocalBody(c, key, payload, footer, implicit, nonce);
        LocalBodyIs(c, key, payload, footer, implicit, nonce, body);
        ReadableIs(token, LOCAL_HEADER, body, footer);
      }
      if nonce, pre, body :|
          |nonce| == 32 && IsLocalBody(c, key, payload, footer, implicit, nonce, pre, body) &&
          Readable(token, B("v4.local."), body, footer) {
        LocalBodyIs(c, key, payload, footer, implicit, nonce, body);
        ReadableIs(token, LOCAL_HEADER, body, footer);
      }
    } else {
      BadKeyRefused(c, token, key, implicit);
    }
  }

  lemma BadKeyRefused(c: Crypto, token: bytes, key: bytes, implicit: bytes)
    requires |key| != 32
    ensures OpenLocalToken(c, token, key, implicit).Err?
  {
  }

  // ---------- v4.public ----------

  predicate IsMessage(m: bytes, payload: bytes, footer: bytes, implicit: bytes) {
    ReadPae(m) == Some([B("v4.public."), payload, footer, implicit])
  }

  lemma MessageIs(m: bytes, payload: bytes, footer: bytes, implicit: bytes)
    requires |payload| < LIMIT && |footer| < LIMIT && |implicit| < LIMIT
    ensures IsMessage(m, payload, footer, implicit) <==> m == PublicMessage(payload, footer, implicit)
  {
    hide B, Pae, ReadPae;
    PaeIff([B("v4.public."), payload, footer, implicit], m);
  }

  /** `sign_v4_public` returns exactly the token of payload and signature. */
  lemma SignIff(s: Signer, payload: bytes, secret: bytes, footer: bytes, implicit: bytes, token: bytes)
    requires |payload| < LIMIT && |footer| < LIMIT && |implicit| < LIMIT
    ensures SignPublic(s, payload, secret, footer, implicit) == Ok(token)
       <==> exists m :: IsMessage(m, payload, footer, implicit) && s.sign(secret, m).Some? &&
                        IsToken(token, B("v4.public."), payload + s.sign(secret, m).value, footer)
  {
    hide B, IsMessage, PublicMessage, IsToken, TokenText;
    var m := PublicMessage(payload, footer, implicit);
    MessageIs(m, payload, footer, implicit);
    if s.sign(secret, m).Some? {
      ReadableIs(token, B("v4.public."), payload + s.sign(secret, m).value, footer);
    }
    forall m' | IsMessage(m', payload, footer, implicit)
      ensures m' == m
    {
      MessageIs(m', payload, footer, implicit);
    }
  }

  /** `verify_v4_public` returns payload and footer exactly for a token with a valid signature of 64 bytes. */
  lemma VerifyIff(s: Signer, token: bytes, public: bytes, implicit: bytes, payload: bytes, footer: bytes)
    requires |payload| < LIMIT && |footer| < LIMIT && |implicit| < LIMIT
    ensures VerifyPublic(s, token, public, implicit) == Ok((payload, footer))
       <==> exists m, sig :: IsMessage(m, payload, footer, implicit) && |sig| == 64 && s.verify(public, m, sig) &&
                             Readable(token, B("v4.public."), payload + sig, footer)
  {
    hide B, IsMessage, PublicMessage, Readable, TokenText, VerifyPublic;
    var m := PublicMessage(payload, footer, implicit);
    MessageIs(m, payload, footer, implicit);
    PublicTokenExact(s, token, public, implicit, payload, footer);
    if sig :| |sig| == 64 && s.verify(public, m, sig) && TokenOrTwin(token, PublicToken(payload, sig, footer), footer) {
      ReadableIs(token, PUBLIC_HEADER, payload + sig, footer);
    }
    if m', sig :| IsMessage(m', payload, footer, implicit) && |sig| == 64 && s.verify(public, m', sig) &&
                  Readable(token, B("v4.public."), payload + sig, footer) {
      MessageIs(m', payload, footer, implicit);
      ReadableIs(token, PUBLIC_HEADER, payload + sig, footer);
    }
  }
}
