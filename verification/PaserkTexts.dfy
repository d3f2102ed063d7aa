/**
 PASERK texts: what `decode_paserk` makes of everything `encode_paserk` writes, and its agreement with the
 stand-alone wrapping functions.
 */
module PaserkTexts {
  import opened Base64
  import opened Bytes
  import opened Paserk
  import opened Paseto
  import opened Text

  // ---------- how the texts split ----------

  lemma HeaderShapes(u: bytes)
    ensures PlainHeader(u) == B("k4") + [DOT] + (u + [DOT])
    ensures PwHeader(u) == B("k4") + [DOT] + (u + B("-pw") + [DOT])
    ensures PieHeader(u) == B("k4") + [DOT] + (u + B("-wrap") + [DOT] + (B("pie") + [DOT]))
    ensures SEAL_HEADER == B("k4") + [DOT] + (B("seal") + [DOT])
  {
    assert B("k4.") == B("k4") + [DOT];
    assert B("-pw.") == B("-pw") + [DOT];
    assert B("-wrap.pie.") == B("-wrap") + [DOT] + (B("pie") + [DOT]);
    assert B("k4.seal.") == B("k4") + [DOT] + (B("seal") + [DOT]);
  }

  lemma PartsAreDotFree()
    ensures NoDot(B("k4")) && NoDot(B("pie")) && NoDot(B("seal")) && NoDot(B("-wrap")) && NoDot(B("-pw"))
    ensures NoDot(B("local")) && NoDot(B("secret")) && NoDot(B("public"))
  {
  }

  lemma NoDotConcat(a: bytes, b: bytes)
    requires NoDot(a) && NoDot(b)
    ensures NoDot(a + b)
  {
  }

  lemma SplitTwo(a: bytes, b: bytes, rest: bytes)
    requires NoDot(a) && NoDot(b)
    ensures SplitDots(a + [DOT] + (b + [DOT]) + rest) == [a, b] + SplitDots(rest)
  {
    hide SplitDots, NoDot;
    HeaderRegroup(a, b, rest);
    SplitDotsCons(a, b + [DOT] + rest);
    SplitDotsCons(b, rest);
    PairPrepend(a, b, SplitDots(rest));
  }

  lemma SplitThree(a: bytes, b: bytes, d: bytes, rest: bytes)
    requires NoDot(a) && NoDot(b) && NoDot(d)
    ensures SplitDots(a + [DOT] + (b + [DOT] + (d + [DOT])) + rest) == [a, b, d] + SplitDots(rest)
  {
    hide SplitDots, NoDot;
    assert a + [DOT] + (b + [DOT] + (d + [DOT])) + rest == a + [DOT] + (b + [DOT]) + (d + [DOT] + rest);
    SplitTwo(a, b, d + [DOT] + rest);
    SplitDotsCons(d, rest);
    assert [a, b] + ([d] + SplitDots(rest)) == [a, b, d] + SplitDots(rest);
  }

  lemma SplitPie(u: bytes, rest: bytes)
    requires NoDot(u)
    ensures SplitDots(PieHeader(u) + rest) == [B("k4"), u + B("-wrap"), B("pie")] + SplitDots(rest)
  {
    hide SplitDots, NoDot, PieHeader, B;
    HeaderShapes(u);
    PartsAreDotFree();
    NoDotConcat(u, B("-wrap"));
    SplitThree(B("k4"), u + B("-wrap"), B("pie"), rest);
  }

  lemma SplitPw(u: bytes, rest: bytes)
    requires NoDot(u)
    ensures SplitDots(PwHeader(u) + rest) == [B("k4"), u + B("-pw")] + SplitDots(rest)
  {
    hide SplitDots, NoDot, PwHeader, B;
    HeaderShapes(u);
    PartsAreDotFree();
    NoDotConcat(u, B("-pw"));
    SplitTwo(B("k4"), u + B("-pw"), rest);
  }

  lemma SplitSeal(rest: bytes)
    ensures SplitDots(SEAL_HEADER + rest) == [B("k4"), B("seal")] + SplitDots(rest)
  {
    hide SplitDots, NoDot, SEAL_HEADER, B;
    HeaderShapes([]);
    PartsAreDotFree();
    SplitTwo(B("k4"), B("seal"), rest);
  }

  lemma SplitPlain(u: bytes, rest: bytes)
    requires NoDot(u)
    ensures SplitDots(PlainHeader(u) + rest) == [B("k4"), u] + SplitDots(rest)
  {
    hide SplitDots, NoDot, PlainHeader, B;
    HeaderShapes(u);
    PartsAreDotFree();
    SplitTwo(B("k4"), u, rest);
  }

  /** A part that decodes is the dot-free encoding of its data. */
  lemma PartExact(x: bytes, d: bytes)
    ensures DecodePart(x) == Ok(d) <==> x == B64(d)
    ensures SplitDots(B64(d)) == [B64(d)]
  {
    hide Encode, Decode, SplitDots;
    DecodeIff(URL_SAFE_NO_PAD, x, d);
    EncodedNoDot(d);
    SplitDotsCons(B64(d), []);
  }

  // ---------- which branch a text takes ----------

  lemma Routes(u: bytes)
    requires IsPurpose(u)
    ensures NoDot(u)
    ensures IsWrappable(u) ==> WrappedPurpose(u + B("-wrap"), B("-wrap")) == Some(u)
    ensures IsWrappable(u) ==> WrappedPurpose(u + B("-pw"), B("-wrap")) == None
    ensures IsWrappable(u) ==> WrappedPurpose(u + B("-pw"), B("-pw")) == Some(u)
    ensures WrappedPurpose(B("seal"), B("-wrap")) == None && WrappedPurpose(B("seal"), B("-pw")) == None
    ensures WrappedPurpose(u, B("-wrap")) == None && WrappedPurpose(u, B("-pw")) == None && u != B("seal")
  {
    hide B;
    PartsAreDotFree();
    assert |B("local-wrap")| == 10;
  }

  lemma DecodesPie(p: Primitives, u: bytes, x: bytes, purpose: Option<bytes>, wk: Option<bytes>,
                   unsealing: Option<bytes>)
    requires IsWrappable(u) && NoDot(x)
    ensures Decoded(p, PieHeader(u) + x, purpose, wk, None, unsealing)
         == DecodePie(p, [B("k4"), u + B("-wrap"), B("pie"), x], u, purpose, wk)
  {
    hide B, SplitDots, NoDot, PieHeader, WrappedPurpose, DecodePie, DecodePw, DecodeSeal, DecodePlain;
    Routes(u);
    SplitPie(u, x);
    SplitDotsCons(x, []);
    assert [B("k4"), u + B("-wrap"), B("pie")] + [x] == [B("k4"), u + B("-wrap"), B("pie"), x];
  }

  lemma DecodesPw(p: Primitives, u: bytes, x: bytes, purpose: Option<bytes>, pw: Option<bytes>,
                  unsealing: Option<bytes>)
    requires IsWrappable(u) && NoDot(x)
    ensures Decoded(p, PwHeader(u) + x, purpose, None, pw, unsealing)
         == DecodePw(p, [B("k4"), u + B("-pw"), x], u, purpose, pw)
  {
    hide B, SplitDots, NoDot, PwHeader, WrappedPurpose, DecodePie, DecodePw, DecodeSeal, DecodePlain;
    Routes(u);
    SplitPw(u, x);
    SplitDotsCons(x, []);
    assert [B("k4"), u + B("-pw")] + [x] == [B("k4"), u + B("-pw"), x];
  }

  // ---------- PIE: both implementations accept the same texts ----------

  lemma HeadersExclusive(t: bytes)
    ensures !(PieHeader(B("local")) <= t && PieHeader(B("secret")) <= t)
    ensures !(PwHeader(B("local")) <= t && PwHeader(B("secret")) <= t)
    ensures forall u :: PieHeader(u) != [] && PwHeader(u) != []
  {
    assert PieHeader(B("local"))[3] == 108 && PieHeader(B("secret"))[3] == 115;
    assert PwHeader(B("local"))[3] == 108 && PwHeader(B("secret"))[3] == 115;
  }

  ghost predicate IsPieText(c: Crypto, wk: bytes, t: bytes, k: bytes) {
    exists u, n :: IsWrappable(u) && |n| == 32 && t == PieText(c, u, wk, n, k)
  }

  /** `paserk_unwrap_pie` accepts exactly the texts `paserk_wrap_pie` can produce. */
  lemma UnwrapPieExact(c: Crypto, wk: bytes, t: bytes, k: bytes)
    requires c.Laws() && |wk| <= KEY_LIMIT
    ensures UnwrapPie(c, wk, t) == Ok(k) <==> IsPieText(c, wk, t, k)
  {
    hide B, PieHeader, Encode, Decode, OpenPie, PieFrame;
    HeadersExclusive(t);
    if UnwrapPie(c, wk, t) == Ok(k) {
      var u := if PieHeader(B("local")) <= t then B("local") else B("secret");
      var x := t[|PieHeader(u)|..];
      var d := DecodePart(x).value;
      PartExact(x, d);
      PieExact(c, PieHeader(u), wk, d, k);
      assert t == PieHeader(u) + x;
      assert |d[32..64]| == 32 && t == PieText(c, u, wk, d[32..64], k);
    }
    if u, n :| IsWrappable(u) && |n| == 32 && t == PieText(c, u, wk, n, k) {
      var d := PieFrame(c, PieHeader(u), wk, n, k);
      assert t[|PieHeader(u)|..] == B64(d);
      PartExact(B64(d), d);
      PieRoundTrip(c, PieHeader(u), wk, n, k);
    }
  }

  lemma DecodePieExact(p: Primitives, u: bytes, x: bytes, purpose: Option<bytes>, wk: bytes, k: bytes)
    requires p.Laws() && IsWrappable(u) && |wk| == 32
    ensures DecodePie(p, [B("k4"), u + B("-wrap"), B("pie"), x], u, purpose, Some(wk)) == Ok(k)
       <==> TypeMatches(purpose, u) && exists n :: |n| == 32 && PieHeader(u) + x == PieText(p.c, u, wk, n, k)
    ensures !TypeMatches(purpose, u) ==>
              DecodePie(p, [B("k4"), u + B("-wrap"), B("pie"), x], u, purpose, Some(wk)) == Err(WrongType)
  {
    hide B, PieHeader, Encode, Decode, OpenPie, PieFrame, IsWrappable;
    var r := DecodePie(p, [B("k4"), u + B("-wrap"), B("pie"), x], u, purpose, Some(wk));
    if r == Ok(k) {
      var d := DecodePart(x).value;
      PartExact(x, d);
      PieExact(p.c, PieHeader(u), wk, d, k);
      assert |d[32..64]| == 32 && PieHeader(u) + x == PieText(p.c, u, wk, d[32..64], k);
    }
    if n :| |n| == 32 && PieHeader(u) + x == PieText(p.c, u, wk, n, k) {
      var d := PieFrame(p.c, PieHeader(u), wk, n, k);
      SamePrefix(PieHeader(u), x, B64(d));
      PartExact(x, d);
      PieRoundTrip(p.c, PieHeader(u), wk, n, k);
    }
  }

  lemma SamePrefix(h: bytes, x: bytes, y: bytes)
    ensures h + x == h + y ==> x == y
  {
    assert (h + x)[|h|..] == x && (h + y)[|h|..] == y;
  }

  lemma JoinThree(a: bytes, b: bytes, x: bytes)
    ensures JoinDots([a, b, x]) == a + [DOT] + (b + [DOT]) + x
  {
    assert [a, b, x][1..] == [b, x] && [b, x][1..] == [x];
    assert JoinDots([b, x]) == b + [DOT] + x;
  }

  lemma JoinFour(a: bytes, b: bytes, d: bytes, x: bytes)
    ensures JoinDots([a, b, d, x]) == a + [DOT] + (b + [DOT] + (d + [DOT])) + x
  {
    assert [a, b, d, x][1..] == [b, d, x];
    JoinThree(b, d, x);
  }

  lemma PurposeOf(part: bytes)
    ensures var u := WrappedPurpose(part, B("-wrap")); u.Some? ==> IsWrappable(u.value) && part == u.value + B("-wrap")
    ensures var u := WrappedPurpose(part, B("-pw")); u.Some? ==> IsWrappable(u.value) && part == u.value + B("-pw")
  {
  }

  lemma DecodedPieText(p: Primitives, u: bytes, wk: bytes, n: bytes, k: bytes, want: Option<bytes>,
                       unsealing: Option<bytes>)
    requires p.Laws() && |wk| == 32 && IsWrappable(u) && |n| == 32
    ensures Decoded(p, PieText(p.c, u, wk, n, k), want, Some(wk), None, unsealing)
         == if TypeMatches(want, u) then Ok(k) else Err(WrongType)
  {
    hide PieHeader, PieFrame, Encode, NoDot, IsWrappable, DecodePie, Decoded;
    var x := B64(PieFrame(p.c, PieHeader(u), wk, n, k));
    EncodedNoDot(PieFrame(p.c, PieHeader(u), wk, n, k));
    DecodesPie(p, u, x, want, Some(wk), unsealing);
    DecodePieExact(p, u, x, want, wk, k);
    assert |n| == 32 && PieHeader(u) + x == PieText(p.c, u, wk, n, k);
  }

  // ---------- PBKW ----------

  /** t is the wrapping of k for purpose u under the password and the parameters q. */
  ghost predicate PwWrapped(p: Primitives, u: bytes, pw: bytes, q: PbkwParams, t: bytes, k: bytes) {
    q.WellFormed() && Stretch(p, pw, q).Some? && t == PwText(p, u, Stretch(p, pw, q).value, q, k)
  }

  ghost predicate IsPwText(p: Primitives, pw: bytes, t: bytes, k: bytes) {
    exists u, q :: IsWrappable(u) && PwWrapped(p, u, pw, q, t, k)
  }

  lemma OpenPbkwFrame(p: Primitives, u: bytes, x: bytes, pw: bytes, minimum: nat, k: bytes)
    requires p.Laws() && minimum >= 88
    ensures (exists d :: DecodePart(x) == Ok(d) && OpenPbkw(p, PwHeader(u), pw, minimum, d) == Ok(k))
       <==> minimum <= 88 + |k| && exists q :: PwWrapped(p, u, pw, q, PwHeader(u) + x, k)
  {
    hide PwHeader, Encode, Decode, OpenPbkw, PbkwFrame, Stretch, PbkwParams.WellFormed, ReadParams, PbkwParams.Text;
    if d :| DecodePart(x) == Ok(d) && OpenPbkw(p, PwHeader(u), pw, minimum, d) == Ok(k) {
      PartExact(x, d);
      PbkwExact(p, PwHeader(u), pw, minimum, d, k);
      ParamsCanonical(d);
      var q := ReadParams(d);
      PbkwParts(p, PwHeader(u), Stretch(p, pw, q).value, q, k);
      assert PwWrapped(p, u, pw, q, PwHeader(u) + x, k);
    }
    if q :| PwWrapped(p, u, pw, q, PwHeader(u) + x, k) {
      if minimum <= 88 + |k| {
        var d := PbkwFrame(p, PwHeader(u), Stretch(p, pw, q).value, q, k);
        SamePrefix(PwHeader(u), x, B64(d));
        PartExact(x, d);
        PbkwRoundTrip(p, PwHeader(u), pw, minimum, q, k);
        assert DecodePart(x) == Ok(d);
      }
    }
  }

  /** `paserk_unwrap_pbkw` accepts exactly the texts of a password wrapping, whatever its cost parameters. */
  lemma UnwrapPbkwExact(p: Primitives, pw: bytes, t: bytes, k: bytes)
    requires p.Laws()
    ensures UnwrapPbkw(p, pw, t) == Ok(k) <==> IsPwText(p, pw, t, k)
  {
    hide B, PwHeader, Encode, DecodePart, OpenPbkw, PbkwFrame, Stretch, PbkwParams.WellFormed;
    HeadersExclusive(t);
    if UnwrapPbkw(p, pw, t) == Ok(k) {
      var u := if PwHeader(B("local")) <= t then B("local") else B("secret");
      var x := t[|PwHeader(u)|..];
      assert t == PwHeader(u) + x;
      OpenPbkwFrame(p, u, x, pw, 88, k);
      assert DecodePart(x) == Ok(DecodePart(x).value);
    }
    if u, q :| IsWrappable(u) && PwWrapped(p, u, pw, q, t, k) {
      var x := B64(PbkwFrame(p, PwHeader(u), Stretch(p, pw, q).value, q, k));
      assert PwHeader(u) <= t && t[|PwHeader(u)|..] == x && t == PwHeader(u) + x;
      assert PwWrapped(p, u, pw, q, PwHeader(u) + x, k);
      OpenPbkwFrame(p, u, x, pw, 88, k);
    }
  }

  lemma DecodedPwText(p: Primitives, u: bytes, pw: bytes, q: PbkwParams, k: bytes, want: Option<bytes>,
                      unsealing: Option<bytes>)
    requires p.Laws() && IsWrappable(u) && q.WellFormed() && Stretch(p, pw, q).Some? && |k| >= 32
    ensures Decoded(p, PwText(p, u, Stretch(p, pw, q).value, q, k), want, None, Some(pw), unsealing)
         == if TypeMatches(want, u) then Ok(k) else Err(WrongType)
  {
    hide PwHeader, Encode, NoDot, IsWrappable, OpenPbkw, PbkwFrame, Stretch, PbkwParams.WellFormed, Decoded, DecodePart;
    var d := PbkwFrame(p, PwHeader(u), Stretch(p, pw, q).value, q, k);
    EncodedNoDot(d);
    DecodesPw(p, u, B64(d), want, Some(pw), unsealing);
    OpenPbkwFrame(p, u, B64(d), pw, 120, k);
    assert PwWrapped(p, u, pw, q, PwHeader(u) + B64(d), k);
  }

  // ---------- seal ----------

  /** A sealed text, possibly followed by a fourth part that nothing reads. */
  predicate SealedWith(t: bytes, d: bytes, junk: Option<bytes>) {
    t == SealText(d) + (if junk == None then [] else [DOT] + junk.value) && (junk.Some? ==> NoDot(junk.value))
  }

  lemma SealedSplits(d: bytes, junk: bytes)
    requires NoDot(junk)
    ensures SplitDots(SealText(d)) == [B("k4"), B("seal"), B64(d)]
    ensures SplitDots(SealText(d) + ([DOT] + junk)) == [B("k4"), B("seal"), B64(d), junk]
  {
    hide B, NoDot, SplitDots, Encode, SEAL_HEADER;
    EncodedNoDot(d);
    SplitSeal(B64(d));
    SplitSeal(B64(d) + [DOT] + junk);
    SplitDotsCons(B64(d), junk);
    SplitDotsCons(junk, []);
    assert SealText(d) + ([DOT] + junk) == SEAL_HEADER + (B64(d) + [DOT] + junk);
    assert [B("k4"), B("seal")] + [B64(d)] == [B("k4"), B("seal"), B64(d)];
    assert [B("k4"), B("seal")] + ([B64(d)] + [junk]) == [B("k4"), B("seal"), B64(d), junk];
  }

  /**
   Under a `k4.seal.` header the reader accepts exactly the sealed data its secret key opens, whatever type is
   asked for, and it ignores a fourth part.
   */
  lemma DecodedSealExact(p: Primitives, t: bytes, want: Option<bytes>, wk: Option<bytes>, pw: Option<bytes>,
                         unsealing: bytes, xsk: bytes, k: bytes)
    requires SEAL_HEADER <= t && !(wk.Some? && pw.Some?) && p.x25519Extract(unsealing) == Some(xsk)
    ensures Decoded(p, t, want, wk, pw, Some(unsealing)) == Ok(k)
       <==> exists d, junk :: OpenSeal(p, xsk, d) == Ok(k) && SealedWith(t, d, junk)
  {
    hide B, SEAL_HEADER, Encode, Decode, SplitDots, JoinDots, NoDot, WrappedPurpose, OpenSeal;
    var rest := t[|SEAL_HEADER|..];
    var parts := SplitDots(t);
    assert t == SEAL_HEADER + rest;
    SplitSeal(rest);
    Routes(B("local"));
    if Decoded(p, t, want, wk, pw, Some(unsealing)) == Ok(k) {
      var d := DecodePart(parts[2]).value;
      PartExact(parts[2], d);
      SplitDotsJoin(rest);
      SealRest(rest, parts[2]);
      var junk := if |parts| == 3 then None else Some(parts[3]);
      assert SplitDots(rest)[1..] == parts[3..];
      assert SealedWith(t, d, junk);
    }
    if d, junk :| OpenSeal(p, xsk, d) == Ok(k) && SealedWith(t, d, junk) {
      assert NoDot([]) by { SealedNoJunk(); }
      SealedSplits(d, if junk == None then [] else junk.value);
      assert SealText(d) + [] == SealText(d);
      PartExact(B64(d), d);
    }
  }

  lemma SealedNoJunk()
    ensures NoDot([])
  {
  }

  lemma SealRest(rest: bytes, x: bytes)
    requires |SplitDots(rest)| <= 2 && SplitDots(rest)[0] == x
    ensures rest == x + (if |SplitDots(rest)| == 1 then [] else [DOT] + SplitDots(rest)[1])
  {
  }

  // ---------- plain ----------

  /** The second part of a key that is neither wrapped nor sealed. */
  predicate PlainPart(u: bytes) {
    NoDot(u) && WrappedPurpose(u, B("-wrap")) == None && WrappedPurpose(u, B("-pw")) == None && u != B("seal")
  }

  /** What may stand for the type: the one asked for, whatever it is, or a purpose. */
  predicate PlainType(u: bytes, want: Option<bytes>) {
    PlainPart(u) && if want.Some? then want.value == u else IsPurpose(u)
  }

  lemma DecodedPlainText(p: Primitives, u: bytes, k: bytes, want: Option<bytes>, unsealing: Option<bytes>)
    requires PlainPart(u)
    ensures Decoded(p, PlainText(u, k), want, None, None, unsealing)
         == if PlainType(u, want) then Ok(k) else Err(WrongType)
  {
    hide B, PlainHeader, SplitDots, Encode, Decode, NoDot, WrappedPurpose;
    SplitPlain(u, B64(k));
    PartExact(B64(k), k);
    assert [B("k4"), u] + [B64(k)] == [B("k4"), u, B64(k)];
  }

  // ---------- everything `decode_paserk` accepts ----------

  ghost predicate PieAccepted(p: Primitives, t: bytes, want: Option<bytes>, wk: Option<bytes>, k: bytes) {
    wk.Some? && |wk.value| == 32 &&
    exists u, n :: IsWrappable(u) && TypeMatches(want, u) && |n| == 32 && t == PieText(p.c, u, wk.value, n, k)
  }

  ghost predicate PwAccepted(p: Primitives, t: bytes, want: Option<bytes>, pw: Option<bytes>, k: bytes) {
    pw.Some? && |k| >= 32 && exists u, q :: IsWrappable(u) && TypeMatches(want, u) && PwWrapped(p, u, pw.value, q, t, k)
  }

  ghost predicate SealAccepted(p: Primitives, t: bytes, unsealing: Option<bytes>, k: bytes) {
    unsealing.Some? && p.x25519Extract(unsealing.value).Some? &&
    exists d, junk :: OpenSeal(p, p.x25519Extract(unsealing.value).value, d) == Ok(k) && SealedWith(t, d, junk)
  }

  ghost predicate PlainAccepted(t: bytes, want: Option<bytes>, wk: Option<bytes>, pw: Option<bytes>, k: bytes) {
    wk == None && pw == None && exists u :: PlainType(u, want) && t == PlainText(u, k)
  }

  /**
   For every text and all arguments: `decode_paserk` yields k exactly for the wrappings of k under the key or
   password given, of the type asked for; the sealings of k the unsealing key opens, of any type; and the plain
   texts of k.
   */
  lemma DecodedExact(p: Primitives, t: bytes, want: Option<bytes>, wk: Option<bytes>, pw: Option<bytes>,
                     unsealing: Option<bytes>, k: bytes)
    requires p.Laws()
    ensures Decoded(p, t, want, wk, pw, unsealing) == Ok(k)
       <==> !(wk.Some? && pw.Some?) &&
            (PieAccepted(p, t, want, wk, k) || PwAccepted(p, t, want, pw, k) ||
             SealAccepted(p, t, unsealing, k) || PlainAccepted(t, want, wk, pw, k))
  {
    hide Decoded, PieAccepted, PwAccepted, SealAccepted, PlainAccepted;
    if wk.Some? && pw.Some? {
      Conflicting(p, t, want, wk, pw, unsealing);
    } else {
      if Decoded(p, t, want, wk, pw, unsealing) == Ok(k) {
        DecodedIsAccepted(p, t, want, wk, pw, unsealing, k);
      }
      AcceptedIsDecoded(p, t, want, wk, pw, unsealing, k);
    }
  }

  lemma Conflicting(p: Primitives, t: bytes, want: Option<bytes>, wk: Option<bytes>, pw: Option<bytes>,
                    unsealing: Option<bytes>)
    requires wk.Some? && pw.Some?
    ensures Decoded(p, t, want, wk, pw, unsealing) == Err(Conflict)
  {
  }

  lemma AcceptedIsDecoded(p: Primitives, t: bytes, want: Option<bytes>, wk: Option<bytes>, pw: Option<bytes>,
                          unsealing: Option<bytes>, k: bytes)
    requires p.Laws() && !(wk.Some? && pw.Some?)
    ensures PieAccepted(p, t, want, wk, k) ==> Decoded(p, t, want, wk, pw, unsealing) == Ok(k)
    ensures PwAccepted(p, t, want, pw, k) ==> Decoded(p, t, want, wk, pw, unsealing) == Ok(k)
    ensures SealAccepted(p, t, unsealing, k) ==> Decoded(p, t, want, wk, pw, unsealing) == Ok(k)
    ensures PlainAccepted(t, want, wk, pw, k) ==> Decoded(p, t, want, wk, pw, unsealing) == Ok(k)
  {
    hide Decoded, PieText, PwText, PlainText, IsWrappable, Stretch, OpenSeal, PlainPart, SEAL_HEADER;
    hide PbkwParams.WellFormed;
    if PieAccepted(p, t, want, wk, k) {
      var u, n :| IsWrappable(u) && TypeMatches(want, u) && |n| == 32 && t == PieText(p.c, u, wk.value, n, k);
      DecodedPieText(p, u, wk.value, n, k, want, unsealing);
    }
    if PwAccepted(p, t, want, pw, k) {
      var u, q :| IsWrappable(u) && TypeMatches(want, u) && PwWrapped(p, u, pw.value, q, t, k);
      DecodedPwText(p, u, pw.value, q, k, want, unsealing);
    }
    if SealAccepted(p, t, unsealing, k) {
      var xsk := p.x25519Extract(unsealing.value).value;
      var d, junk :| OpenSeal(p, xsk, d) == Ok(k) && SealedWith(t, d, junk);
      SealPrefix(t, d, junk);
      DecodedSealExact(p, t, want, wk, pw, unsealing.value, xsk, k);
    }
    if PlainAccepted(t, want, wk, pw, k) {
      var u :| PlainType(u, want) && t == PlainText(u, k);
      DecodedPlainText(p, u, k, want, unsealing);
    }
  }

  lemma SealPrefix(t: bytes, d: bytes, junk: Option<bytes>)
    requires SealedWith(t, d, junk)
    ensures SEAL_HEADER <= t
  {
    hide Encode, SEAL_HEADER;
  }

  lemma DecodedIsAccepted(p: Primitives, t: bytes, want: Option<bytes>, wk: Option<bytes>, pw: Option<bytes>,
                          unsealing: Option<bytes>, k: bytes)
    requires p.Laws() && !(wk.Some? && pw.Some?) && Decoded(p, t, want, wk, pw, unsealing) == Ok(k)
    ensures PieAccepted(p, t, want, wk, k) || PwAccepted(p, t, want, pw, k) ||
            SealAccepted(p, t, unsealing, k) || PlainAccepted(t, want, wk, pw, k)
  {
    hide B, SplitDots, NoDot, WrappedPurpose, DecodePie, DecodePw, DecodeSeal, DecodePlain;
    hide PieAccepted, PwAccepted, SealAccepted, PlainAccepted;
    var parts := SplitDots(t);
    PurposeOf(parts[1]);
    if WrappedPurpose(parts[1], B("-wrap")).Some? {
      PieBranch(p, t, WrappedPurpose(parts[1], B("-wrap")).value, want, wk, k);
    } else if WrappedPurpose(parts[1], B("-pw")).Some? {
      PwBranch(p, t, WrappedPurpose(parts[1], B("-pw")).value, want, pw, k);
    } else if parts[1] == B("seal") {
      SealBranch(p, t, want, wk, pw, unsealing, k);
    } else {
      PlainBranch(t, want, wk, pw, k);
    }
  }

  lemma PieBranch(p: Primitives, t: bytes, u: bytes, want: Option<bytes>, wk: Option<bytes>, k: bytes)
    requires p.Laws() && IsWrappable(u) && |SplitDots(t)| >= 2
    requires SplitDots(t)[0] == B("k4") && SplitDots(t)[1] == u + B("-wrap")
    requires DecodePie(p, SplitDots(t), u, want, wk) == Ok(k)
    ensures PieAccepted(p, t, want, wk, k)
  {
    hide B, PieHeader, PieFrame, Encode, SplitDots, JoinDots, NoDot, IsWrappable, OpenPie, DecodePart;
    var parts := SplitDots(t);
    var x := parts[3];
    assert parts == [B("k4"), u + B("-wrap"), B("pie"), x];
    SplitDotsJoin(t);
    JoinFour(B("k4"), u + B("-wrap"), B("pie"), x);
    HeaderShapes(u);
    DecodePieExact(p, u, x, want, wk.value, k);
    var n :| |n| == 32 && PieHeader(u) + x == PieText(p.c, u, wk.value, n, k);
    assert IsWrappable(u) && TypeMatches(want, u) && |n| == 32 && t == PieText(p.c, u, wk.value, n, k);
  }

  lemma PwBranch(p: Primitives, t: bytes, u: bytes, want: Option<bytes>, pw: Option<bytes>, k: bytes)
    requires p.Laws() && IsWrappable(u) && |SplitDots(t)| >= 2
    requires SplitDots(t)[0] == B("k4") && SplitDots(t)[1] == u + B("-pw")
    requires DecodePw(p, SplitDots(t), u, want, pw) == Ok(k)
    ensures PwAccepted(p, t, want, pw, k)
  {
    hide B, PwHeader, PwWrapped, Encode, SplitDots, JoinDots, NoDot, IsWrappable, OpenPbkw, DecodePart;
    var parts := SplitDots(t);
    var x := parts[2];
    assert parts == [B("k4"), u + B("-pw"), x];
    SplitDotsJoin(t);
    JoinThree(B("k4"), u + B("-pw"), x);
    HeaderShapes(u);
    OpenPbkwFrame(p, u, x, pw.value, 120, k);
    assert DecodePart(x) == Ok(DecodePart(x).value);
    var q :| PwWrapped(p, u, pw.value, q, PwHeader(u) + x, k);
    assert IsWrappable(u) && TypeMatches(want, u) && PwWrapped(p, u, pw.value, q, t, k);
  }

  lemma SealBranch(p: Primitives, t: bytes, want: Option<bytes>, wk: Option<bytes>, pw: Option<bytes>,
                   unsealing: Option<bytes>, k: bytes)
    requires p.Laws() && !(wk.Some? && pw.Some?) && Decoded(p, t, want, wk, pw, unsealing) == Ok(k)
    requires |SplitDots(t)| >= 3 && SplitDots(t)[0] == B("k4") && SplitDots(t)[1] == B("seal")
    requires DecodeSeal(p, SplitDots(t), unsealing) == Ok(k)
    ensures SealAccepted(p, t, unsealing, k)
  {
    hide B, SEAL_HEADER, Encode, SplitDots, JoinDots, NoDot, OpenSeal, DecodePart, Decoded;
    SplitDotsJoin(t);
    JoinHead(B("k4"), B("seal"), SplitDots(t)[2..]);
    assert SplitDots(t) == [B("k4"), B("seal")] + SplitDots(t)[2..];
    HeaderShapes([]);
    var xsk := p.x25519Extract(unsealing.value).value;
    DecodedSealExact(p, t, want, wk, pw, unsealing.value, xsk, k);
  }

  lemma JoinHead(a: bytes, b: bytes, rest: seq<bytes>)
    requires rest != []
    ensures JoinDots([a, b] + rest) == a + [DOT] + (b + [DOT]) + JoinDots(rest)
  {
    var parts := [a, b] + rest;
    assert parts[1..] == [b] + rest && ([b] + rest)[1..] == rest;
    assert JoinDots(parts) == a + [DOT] + (b + [DOT] + JoinDots(rest));
  }

  lemma PlainBranch(t: bytes, want: Option<bytes>, wk: Option<bytes>, pw: Option<bytes>, k: bytes)
    requires |SplitDots(t)| >= 3 && SplitDots(t)[0] == B("k4")
    requires WrappedPurpose(SplitDots(t)[1], B("-wrap")) == None && WrappedPurpose(SplitDots(t)[1], B("-pw")) == None
    requires SplitDots(t)[1] != B("seal") && DecodePlain(SplitDots(t), want, wk, pw) == Ok(k)
    ensures PlainAccepted(t, want, wk, pw, k)
  {
    var parts := SplitDots(t);
    hide B, PlainHeader, Encode, SplitDots, JoinDots, NoDot, IsPurpose, WrappedPurpose, DecodePart;
    var u, x := parts[1], parts[2];
    assert parts == [B("k4"), u, x];
    PartExact(x, k);
    SplitDotsJoin(t);
    JoinThree(B("k4"), u, x);
    HeaderShapes(u);
    assert PlainType(u, want) && t == PlainText(u, k);
  }

  // ---------- the two implementations of the wrapped modes ----------

  /** The two PIE readers agree on every text. */
  lemma PieInterop(p: Primitives, t: bytes, wk: bytes, k: bytes)
    requires p.Laws() && |wk| == 32
    ensures UnwrapPie(p.c, wk, t) == Ok(k) <==> Decoded(p, t, None, Some(wk), None, None) == Ok(k)
  {
    hide UnwrapPie, Decoded, PieText, IsWrappable;
    UnwrapPieExact(p.c, wk, t, k);
    DecodedExact(p, t, None, Some(wk), None, None, k);
    if u, n :| IsWrappable(u) && |n| == 32 && t == PieText(p.c, u, wk, n, k) {
      assert IsWrappable(u) && TypeMatches(None, u) && |n| == 32 && t == PieText(p.c, u, wk, n, k);
    }
  }

  /** The two PBKW readers agree on every text that holds a key of at least 32 bytes. */
  lemma PbkwInterop(p: Primitives, t: bytes, pw: bytes, k: bytes)
    requires p.Laws()
    ensures Decoded(p, t, None, None, Some(pw), None) == Ok(k) <==> |k| >= 32 && UnwrapPbkw(p, pw, t) == Ok(k)
  {
    hide UnwrapPbkw, Decoded, PwWrapped, IsWrappable;
    UnwrapPbkwExact(p, pw, t, k);
    DecodedExact(p, t, None, None, Some(pw), None, k);
    if u, q :| IsWrappable(u) && PwWrapped(p, u, pw, q, t, k) {
      assert IsWrappable(u) && TypeMatches(None, u) && PwWrapped(p, u, pw, q, t, k);
    }
  }

  /** A text made by either PIE encoder is read by both readers. */
  lemma WrapPieInterop(p: Primitives, wk: bytes, k: bytes, u: bytes, nonce: Option<bytes>, r: Draws, key: bytes)
    requires p.Laws() && |wk| == 32 && r.Sized() && (nonce.Some? ==> |nonce.value| == 32)
    ensures var t := WrapPie(p.c, wk, k, u, nonce);
            t.Ok? ==>
              UnwrapPie(p.c, wk, t.value) == Ok(k) && Decoded(p, t.value, Some(u), Some(wk), None, None) == Ok(k)
    ensures var t := Encoded(p, u, key, Some(wk), None, None, r);
            t.Ok? ==> UnwrapPie(p.c, wk, t.value) == Normalised(u, key, p.ed25519)
  {
    hide B, PieText, IsPieText, UnwrapPie, Decoded, Normalised;
    if IsWrappable(u) && nonce.Some? {
      PieTextIs(p.c, wk, u, nonce.value, k);
      UnwrapPieExact(p.c, wk, PieText(p.c, u, wk, nonce.value, k), k);
      DecodedPieText(p, u, wk, nonce.value, k, Some(u), None);
    }
    var t := Encoded(p, u, key, Some(wk), None, None, r);
    NormalisedShape(u, key, p.ed25519);
    if t.Ok? {
      PieTextIs(p.c, wk, u, r.wrapNonce.value, Normalised(u, key, p.ed25519).value);
      UnwrapPieExact(p.c, wk, t.value, Normalised(u, key, p.ed25519).value);
    }
  }

  lemma PieTextIs(c: Crypto, wk: bytes, u: bytes, n: bytes, k: bytes)
    requires IsWrappable(u) && |n| == 32
    ensures IsPieText(c, wk, PieText(c, u, wk, n, k), k)
  {
  }

  /** A text made by either PBKW encoder is read by both readers, for every 64-bit memory limit. */
  lemma WrapPbkwInterop(p: Primitives, pw: bytes, k: bytes, u: bytes, mem: nat, time: nat, para: nat, r: Draws,
                        key: bytes)
    requires p.Laws() && r.Sized() && mem < U64 && time < U32 && para < U32
    ensures var t := WrapPbkw(p, pw, k, u, mem, time, para, r);
            t.Ok? ==> UnwrapPbkw(p, pw, t.value) == Ok(k) &&
                      (|k| >= 32 ==> Decoded(p, t.value, Some(u), None, Some(pw), None) == Ok(k))
    ensures var t := Encoded(p, u, key, None, Some(pw), None, r);
            t.Ok? ==> UnwrapPbkw(p, pw, t.value) == Normalised(u, key, p.ed25519)
  {
    hide B, PwText, IsPwText, UnwrapPbkw, Decoded, Normalised, Stretch, DefaultParams;
    var t := WrapPbkw(p, pw, k, u, mem, time, para, r);
    if t.Ok? {
      var q := PbkwParams(r.salt.value, mem, time, para, r.nonce.value);
      PwTextIs(p, u, pw, q, k);
      UnwrapPbkwExact(p, pw, t.value, k);
      if |k| >= 32 {
        DecodedPwText(p, u, pw, q, k, Some(u), None);
      }
    }
    var e := Encoded(p, u, key, None, Some(pw), None, r);
    NormalisedShape(u, key, p.ed25519);
    if e.Ok? {
      SameCost(p, pw, r.salt.value, r.nonce.value);
      PwTextIs(p, u, pw, DefaultParams(r.salt.value, r.nonce.value), Normalised(u, key, p.ed25519).value);
      UnwrapPbkwExact(p, pw, e.value, Normalised(u, key, p.ed25519).value);
    }
  }

  lemma PwTextIs(p: Primitives, u: bytes, pw: bytes, q: PbkwParams, k: bytes)
    requires IsWrappable(u) && q.WellFormed() && Stretch(p, pw, q).Some?
    ensures IsPwText(p, pw, PwText(p, u, Stretch(p, pw, q).value, q, k), k)
  {
    assert PwWrapped(p, u, pw, q, PwText(p, u, Stretch(p, pw, q).value, q, k), k);
  }

  // ---------- what the tags bind ----------

  /** Encryption and authentication keys come from different inputs, in every mode and for every nonce. */
  lemma KeysSeparated(n: bytes, k: bytes, xk: bytes, epk: bytes, xpk: bytes)
    requires |n| == 32
    ensures [0x80] + n != [0x81] + n && [0xff] + k != [0xfe] + k
    ensures [0x01] + SEAL_HEADER + xk + epk + xpk != [0x02] + SEAL_HEADER + xk + epk + xpk
    ensures B("paseto-encryption-key") + n != B("paseto-auth-key-for-aead") + n
  {
    assert ([0x80] + n)[0] == 0x80 && ([0x81] + n)[0] == 0x81;
    assert ([0xff] + k)[0] == 0xff && ([0xfe] + k)[0] == 0xfe;
    assert ([0x01] + SEAL_HEADER + xk + epk + xpk)[0] == 0x01;
    assert ([0x02] + SEAL_HEADER + xk + epk + xpk)[0] == 0x02;
    assert |B("paseto-encryption-key")| == 21 && |B("paseto-auth-key-for-aead")| == 24;
  }

  /** The string a PIE tag covers determines purpose, nonce and ciphertext. */
  lemma PieMessageInjective(u: bytes, n: bytes, ct: bytes, u': bytes, n': bytes, ct': bytes)
    requires IsWrappable(u) && IsWrappable(u') && |n| == 32 && |n'| == 32
    requires PieHeader(u) + n + ct == PieHeader(u') + n' + ct'
    ensures u == u' && n == n' && ct == ct'
  {
    var m, m' := PieHeader(u) + n + ct, PieHeader(u') + n' + ct';
    HeadersExclusive(m);
    assert m[..|PieHeader(u)|] == PieHeader(u) && m'[..|PieHeader(u')|] == PieHeader(u');
    hide B, PieHeader;
    var h := |PieHeader(u)|;
    assert m[h..h + 32] == n && m'[h..h + 32] == n' && m[h + 32..] == ct && m'[h + 32..] == ct';
  }

  /** The string a PBKW tag covers determines purpose, parameters and ciphertext. */
  lemma PwMessageInjective(u: bytes, q: PbkwParams, ct: bytes, u': bytes, q': PbkwParams, ct': bytes)
    requires IsWrappable(u) && IsWrappable(u') && q.WellFormed() && q'.WellFormed()
    requires PwHeader(u) + (q.Text() + ct) == PwHeader(u') + (q'.Text() + ct')
    ensures u == u' && q == q' && ct == ct'
  {
    hide PbkwParams.Text;
    var m, m' := PwHeader(u) + (q.Text() + ct), PwHeader(u') + (q'.Text() + ct');
    HeadersExclusive(m);
    assert m[..|PwHeader(u)|] == PwHeader(u) && m'[..|PwHeader(u')|] == PwHeader(u');
    hide B, PwHeader, ReadParams;
    SamePrefix(PwHeader(u), q.Text() + ct, q'.Text() + ct');
    ParamsReadBack(q, ct);
    ParamsReadBack(q', ct');
    assert (q.Text() + ct)[56..] == ct && (q'.Text() + ct')[56..] == ct';
  }

  /**
   A PIE wrapping relabelled for the other purpose is refused, unless the keyed hash collides on the two labelled
   strings.
   */
  lemma PieBindsPurpose(c: Crypto, wk: bytes, u: bytes, u': bytes, n: bytes, k: bytes)
    requires c.Laws() && IsWrappable(u) && IsWrappable(u') && |n| == 32
    requires var (ek, n2, ak) := PieKeys(c, wk, n);
             var ct := c.stream(ek, n2, k);
             var m, m' := PieHeader(u) + n + ct, PieHeader(u') + n + ct;
             m == m' || c.mac(ak, m, 32) != c.mac(ak, m', 32)
    ensures OpenPie(c, PieHeader(u'), wk, PieFrame(c, PieHeader(u), wk, n, k)) == (if u == u' then Some(k) else None)
  {
    hide B, PieHeader, PieKeys, IsWrappable, PieFrame;
    PieParts(c, PieHeader(u), wk, n, k);
    if u == u' {
      PieRoundTrip(c, PieHeader(u), wk, n, k);
    } else {
      var (ek, n2, ak) := PieKeys(c, wk, n);
      var ct := c.stream(ek, n2, k);
      if PieHeader(u) + n + ct == PieHeader(u') + n + ct {
        PieMessageInjective(u, n, ct, u', n, ct);
      }
    }
  }

  /** So is a password wrapping. */
  lemma PwBindsPurpose(p: Primitives, pw: bytes, u: bytes, u': bytes, q: PbkwParams, k: bytes, minimum: nat)
    requires p.Laws() && IsWrappable(u) && IsWrappable(u') && q.WellFormed() && Stretch(p, pw, q).Some? &&
             88 <= minimum <= 88 + |k|
    requires var s := Stretch(p, pw, q).value;
             var ct := p.c.stream(p.c.hash([0xff] + s, 32), q.nonce, k);
             var m, m' := PwHeader(u) + (q.Text() + ct), PwHeader(u') + (q.Text() + ct);
             m == m' || p.c.mac(p.c.hash([0xfe] + s, 32), m, 32) != p.c.mac(p.c.hash([0xfe] + s, 32), m', 32)
    ensures OpenPbkw(p, PwHeader(u'), pw, minimum, PbkwFrame(p, PwHeader(u), Stretch(p, pw, q).value, q, k))
         == (if u == u' then Ok(k) else Err(UnwrapFailed))
  {
    hide B, PwHeader, IsWrappable, PbkwFrame, Stretch, PbkwParams.Text, PbkwParams.WellFormed, ReadParams;
    var s := Stretch(p, pw, q).value;
    var f := PbkwFrame(p, PwHeader(u), s, q, k);
    PbkwParts(p, PwHeader(u), s, q, k);
    assert f == q.Text() + f[56..];
    ParamsReadBack(q, f[56..]);
    if u == u' {
      PbkwRoundTrip(p, PwHeader(u), pw, minimum, q, k);
    } else {
      var ct := p.c.stream(p.c.hash([0xff] + s, 32), q.nonce, k);
      if PwHeader(u) + (q.Text() + ct) == PwHeader(u') + (q.Text() + ct) {
        PwMessageInjective(u, q, ct, u', q, ct);
      }
    }
  }

  // ---------- round trip of the whole ----------

  lemma NormalisedShape(purpose: bytes, key: bytes, ed25519: bytes -> Option<bytes>)
    ensures var k := Normalised(purpose, key, ed25519);
            k.Ok? ==> IsPurpose(purpose) && |k.value| >= 32 && (purpose != B("public") ==> IsWrappable(purpose))
  {
  }

  /** Both sides hand Argon2 the same cost: 64 MiB written as bytes and read back as KiB. */
  lemma SameCost(p: Primitives, pw: bytes, salt: bytes, nonce: bytes)
    requires |salt| == 16 && |nonce| == 24
    ensures DefaultParams(salt, nonce).WellFormed()
    ensures Stretch(p, pw, DefaultParams(salt, nonce)) == p.argon2(pw, salt, MEM_KIB, 2, 1)
  {
  }

  /**
   Whatever `encode_paserk` writes, `decode_paserk` with the matching secret reads back, up to the completion
   of a 32-byte secret seed; asked for another type it refuses, except for sealed keys, whose type it ignores.
   */
  lemma PaserkRoundTrip(p: Primitives, purpose: bytes, key: bytes, wk: Option<bytes>, pw: Option<bytes>,
                        sealing: Option<bytes>, r: Draws, want: Option<bytes>, unsealing: Option<bytes>)
    requires p.Laws() && r.Sized()
    requires sealing.Some? && p.x25519Extract(sealing.value).Some? ==>
               unsealing.Some? && p.x25519Extract(unsealing.value).Some? &&
               p.Agrees(p.x25519Extract(unsealing.value).value, p.x25519Extract(sealing.value).value)
    requires Encoded(p, purpose, key, wk, pw, sealing, r).Ok?
    ensures var text, k := Encoded(p, purpose, key, wk, pw, sealing, r).value, Normalised(purpose, key, p.ed25519);
            k.Ok? && Decoded(p, text, want, wk, pw, unsealing)
                  == if TypeMatches(want, purpose) || (pw == None && sealing.Some?) then Ok(k.value) else Err(WrongType)
  {
    hide B, Normalised, Decoded, PieText, PwText, SealFrame, SealText, PlainText, Stretch, DefaultParams;
    NormalisedShape(purpose, key, p.ed25519);
    var k := Normalised(purpose, key, p.ed25519).value;
    if pw.Some? {
      SameCost(p, pw.value, r.salt.value, r.nonce.value);
      DecodedPwText(p, purpose, pw.value, DefaultParams(r.salt.value, r.nonce.value), k, want, unsealing);
    } else if sealing.Some? {
      var xsk, xpk := p.x25519Extract(unsealing.value).value, p.x25519Extract(sealing.value).value;
      SealRoundTrip(p, xsk, xpk, r.esk.value, k);
      var d := SealFrame(p.c, p.x25519Derive(r.esk.value, xpk).value, p.x25519Public(r.esk.value).value, xpk, k);
      SealedAlone(d);
      DecodedSealExact(p, SealText(d), want, wk, pw, unsealing.value, xsk, k);
    } else if wk.Some? {
      DecodedPieText(p, purpose, wk.value, r.wrapNonce.value, k, want, unsealing);
    } else {
      PurposesArePlain(purpose, want);
      DecodedPlainText(p, purpose, k, want, unsealing);
    }
  }

  lemma PurposesArePlain(u: bytes, want: Option<bytes>)
    requires IsPurpose(u)
    ensures PlainPart(u) && (PlainType(u, want) <==> TypeMatches(want, u))
  {
    hide B, NoDot, WrappedPurpose;
    Routes(u);
  }

  lemma SealedAlone(d: bytes)
    ensures SEAL_HEADER <= SealText(d) && SealedWith(SealText(d), d, None)
  {
  }
}
