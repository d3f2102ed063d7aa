/**
 Base64 (RFC 4648, sections 4 and 5) as the four strict engines of the `base64` crate the repository
 uses, and the permissive decoder of src/py_utils.rs that tries all four.
 */
module Base64 {
  import opened Bytes

  datatype Engine = Engine(url: bool, padded: bool)

  const URL_SAFE_NO_PAD := Engine(true, false)
  const URL_SAFE := Engine(true, true)
  const STANDARD := Engine(false, true)
  const STANDARD_NO_PAD := Engine(false, false)

  const PAD: byte := 61

  /** The symbol of a six-bit value. */
  function Symbol(url: bool, v: nat): byte
    requires v < 64
  {
    if v < 26 then 65 + v
    else if v < 52 then 97 + (v - 26)
    else if v < 62 then 48 + (v - 52)
    else if v == 62 then (if url then 45 else 43)
    else (if url then 95 else 47)
  }

  /** The six-bit value of a symbol. */
  function Sextet(url: bool, c: byte): (v: Option<nat>)
    ensures v.Some? ==> v.value < 64 && Symbol(url, v.value) == c
  {
    if 65 <= c <= 90 then Some(c - 65)
    else if 97 <= c <= 122 then Some(c - 97 + 26)
    else if 48 <= c <= 57 then Some(c - 48 + 52)
    else if c == (if url then 45 else 43) then Some(62)
    else if c == (if url then 95 else 47) then Some(63)
    else None
  }

  /** A character some engine may emit before the padding. */
  predicate IsSymbol(url: bool, c: byte) {
    Sextet(url, c).Some?
  }

  /** The four sextets of three bytes. */
  function Split(x: byte, y: byte, z: byte): (nat, nat, nat, nat) {
    (x / 4, x % 4 * 16 + y / 16, y % 16 * 4 + z / 64, z % 64)
  }

  /** One block of one to three bytes; missing bytes count as zero. */
  function EncodeBlock(url: bool, b: bytes): (r: bytes)
    requires 1 <= |b| <= 3
    ensures |r| == |b| + 1
  {
    var (v0, v1, v2, v3) := Split(b[0], if |b| > 1 then b[1] else 0, if |b| > 2 then b[2] else 0);
    [Symbol(url, v0), Symbol(url, v1), Symbol(url, v2), Symbol(url, v3)][..|b| + 1]
  }

  function EncodeRaw(url: bool, b: bytes): bytes {
    if b == [] then []
    else if |b| <= 3 then EncodeBlock(url, b)
    else EncodeBlock(url, b[..3]) + EncodeRaw(url, b[3..])
  }

  function Padding(n: nat): bytes {
    if n % 3 == 1 then [PAD, PAD] else if n % 3 == 2 then [PAD] else []
  }

  function Encode(e: Engine, b: bytes): bytes {
    EncodeRaw(e.url, b) + if e.padded then Padding(|b|) else []
  }

  /** The three bytes of four sextets. */
  function Join(v0: nat, v1: nat, v2: nat, v3: nat): (byte, byte, byte)
    requires v0 < 64 && v1 < 64 && v2 < 64 && v3 < 64
  {
    (v0 * 4 + v1 / 16, v1 % 16 * 16 + v2 / 4, v2 % 4 * 64 + v3)
  }

  /** One block of two to four symbols; the unused trailing bits must be zero. */
  function DecodeBlock(url: bool, s: bytes): (r: Option<bytes>)
    requires 2 <= |s| <= 4
    ensures r.Some? ==> |r.value| == |s| - 1
  {
    var v0, v1 := Sextet(url, s[0]), Sextet(url, s[1]);
    var v2 := if |s| > 2 then Sextet(url, s[2]) else Some(0);
    var v3 := if |s| > 3 then Sextet(url, s[3]) else Some(0);
    if v0 == None || v1 == None || v2 == None || v3 == None then None
    else
      var (x, y, z) := Join(v0.value, v1.value, v2.value, v3.value);
      if (|s| == 2 && y != 0) || (|s| == 3 && z != 0) then None
      else Some([x, y, z][..|s| - 1])
  }

  /** Strict decoding without padding. */
  function DecodeRaw(url: bool, s: bytes): Option<bytes> {
    if s == [] then Some([])
    else if |s| == 1 then None
    else if |s| <= 4 then DecodeBlock(url, s)
    else
      var block, rest := DecodeBlock(url, s[..4]), DecodeRaw(url, s[4..]);
      if block == None || rest == None then None else Some(block.value + rest.value)
  }

  /** The text without its one or two trailing padding characters. */
  function StripPadding(s: bytes): bytes {
    if |s| >= 2 && s[|s| - 1] == PAD && s[|s| - 2] == PAD then s[..|s| - 2]
    else if |s| >= 1 && s[|s| - 1] == PAD then s[..|s| - 1]
    else s
  }

  function Decode(e: Engine, s: bytes): Option<bytes> {
    if !e.padded then DecodeRaw(e.url, s)
    else if |s| % 4 != 0 then None
    else DecodeRaw(e.url, StripPadding(s))
  }

  predicate IsWhitespace(c: byte) {
    c == 32 || c == 9 || c == 10 || c == 12 || c == 13
  }

  function Clean(s: bytes): bytes {
    if s == [] then []
    else (if IsWhitespace(s[0]) then [] else [s[0]]) + Clean(s[1..])
  }

  function DecodePermissive(input: bytes): Option<bytes> {
    var clean := Clean(input);
    if Decode(URL_SAFE_NO_PAD, clean).Some? then Decode(URL_SAFE_NO_PAD, clean)
    else if Decode(URL_SAFE, clean).Some? then Decode(URL_SAFE, clean)
    else if Decode(STANDARD, clean).Some? then Decode(STANDARD, clean)
    else if Decode(STANDARD_NO_PAD, clean).Some? then Decode(STANDARD_NO_PAD, clean)
    else None
  }

  // ---------- the engines are bijections onto the texts they accept ----------

  lemma SextetOfSymbol(url: bool, v: nat)
    requires v < 64
    ensures Sextet(url, Symbol(url, v)) == Some(v)
  {
  }

  lemma JoinSplit(x: byte, y: byte, z: byte)
    ensures var (v0, v1, v2, v3) := Split(x, y, z);
            v0 < 64 && v1 < 64 && v2 < 64 && v3 < 64 && Join(v0, v1, v2, v3) == (x, y, z)
    ensures y == 0 && z == 0 ==> Split(x, y, z).2 == 0 && Split(x, y, z).3 == 0
    ensures z == 0 ==> Split(x, y, z).3 == 0
  {
    var a, b, c, d := x % 4, y / 16, y % 16, z / 64;
    assert x == 4 * (x / 4) + a && y == 16 * b + c && z == 64 * d + z % 64;
    assert (a * 16 + b) / 16 == a && (a * 16 + b) % 16 == b;
    assert (c * 4 + d) / 4 == c && (c * 4 + d) % 4 == d;
  }

  lemma SplitJoin(v0: nat, v1: nat, v2: nat, v3: nat)
    requires v0 < 64 && v1 < 64 && v2 < 64 && v3 < 64
    ensures var (x, y, z) := Join(v0, v1, v2, v3); Split(x, y, z) == (v0, v1, v2, v3)
  {
    var a, b, c, d := v1 / 16, v1 % 16, v2 / 4, v2 % 4;
    assert v1 == 16 * a + b && v2 == 4 * c + d;
    assert (v0 * 4 + a) / 4 == v0 && (v0 * 4 + a) % 4 == a;
    assert (b * 16 + c) / 16 == b && (b * 16 + c) % 16 == c;
    assert (d * 64 + v3) / 64 == d && (d * 64 + v3) % 64 == v3;
  }

  lemma BlockRoundTrip(url: bool, b: bytes)
    requires 1 <= |b| <= 3
    ensures DecodeBlock(url, EncodeBlock(url, b)) == Some(b)
  {
    hide Symbol, Sextet, Join, Split;
    var x: byte, y: byte, z: byte := b[0], if |b| > 1 then b[1] else 0, if |b| > 2 then b[2] else 0;
    JoinSplit(x, y, z);
    var (v0, v1, v2, v3) := Split(x, y, z);
    SextetOfSymbol(url, v0);
    SextetOfSymbol(url, v1);
    SextetOfSymbol(url, v2);
    SextetOfSymbol(url, v3);
    assert [x, y, z][..|b|] == b;
  }

  lemma BlockCanonical(url: bool, s: bytes)
    requires 2 <= |s| <= 4 && DecodeBlock(url, s).Some?
    ensures EncodeBlock(url, DecodeBlock(url, s).value) == s
  {
    hide Symbol, Sextet, Join, Split;
    var v0, v1 := Sextet(url, s[0]).value, Sextet(url, s[1]).value;
    var v2 := if |s| > 2 then Sextet(url, s[2]).value else 0;
    var v3 := if |s| > 3 then Sextet(url, s[3]).value else 0;
    JoinZero(v0, v1, v2, v3);
    SplitJoin(v0, v1, v2, v3);
  }

  lemma JoinZero(v0: nat, v1: nat, v2: nat, v3: nat)
    requires v0 < 64 && v1 < 64 && v2 < 64 && v3 < 64
    ensures v2 == 0 && v3 == 0 ==> Join(v0, v1, v2, v3).2 == 0
  {
  }

  lemma {:induction false} RawRoundTrip(url: bool, b: bytes)
    ensures DecodeRaw(url, EncodeRaw(url, b)) == Some(b)
  {
    hide EncodeBlock, DecodeBlock;
    if b == [] {
    } else if |b| <= 3 {
      BlockRoundTrip(url, b);
    } else {
      BlockRoundTrip(url, b[..3]);
      RawRoundTrip(url, b[3..]);
      var head, tail := EncodeBlock(url, b[..3]), EncodeRaw(url, b[3..]);
      assert tail != [];
      assert (head + tail)[..4] == head && (head + tail)[4..] == tail;
      assert b == b[..3] + b[3..];
    }
  }

  /** An accepted text is the encoding of its value. */
  lemma {:induction false} RawCanonical(url: bool, s: bytes)
    requires DecodeRaw(url, s).Some?
    ensures EncodeRaw(url, DecodeRaw(url, s).value) == s
  {
    hide EncodeBlock, DecodeBlock;
    if s == [] {
    } else if |s| <= 4 {
      BlockCanonical(url, s);
    } else {
      BlockCanonical(url, s[..4]);
      RawCanonical(url, s[4..]);
      var head, tail := DecodeBlock(url, s[..4]).value, DecodeRaw(url, s[4..]).value;
      assert tail != [];
      assert (head + tail)[..3] == head && (head + tail)[3..] == tail;
      assert s == s[..4] + s[4..];
    }
  }

  lemma BlockSymbols(url: bool, b: bytes)
    requires 1 <= |b| <= 3
    ensures forall i :: 0 <= i <= |b| ==> IsSymbol(url, EncodeBlock(url, b)[i])
  {
  }

  lemma {:induction false} RawSymbols(url: bool, b: bytes)
    ensures forall i :: 0 <= i < |EncodeRaw(url, b)| ==> IsSymbol(url, EncodeRaw(url, b)[i])
    ensures |EncodeRaw(url, b)| % 4 == (if |b| % 3 == 0 then 0 else |b| % 3 + 1)
  {
    hide EncodeBlock, IsSymbol;
    if b == [] {
    } else if |b| <= 3 {
      BlockSymbols(url, b);
    } else {
      BlockSymbols(url, b[..3]);
      RawSymbols(url, b[3..]);
    }
  }

  lemma StripPaddingOfEncoding(url: bool, b: bytes)
    ensures StripPadding(EncodeRaw(url, b) + Padding(|b|)) == EncodeRaw(url, b)
    ensures |EncodeRaw(url, b) + Padding(|b|)| % 4 == 0
  {
    hide EncodeRaw;
    RawSymbols(url, b);
    StripPaddingOf(EncodeRaw(url, b), Padding(|b|));
  }

  lemma StripPaddingOf(r: bytes, pad: bytes)
    requires forall i :: 0 <= i < |r| ==> r[i] != PAD
    requires pad == [] || pad == [PAD] || pad == [PAD, PAD]
    requires |pad| == 1 ==> |r| > 0
    ensures StripPadding(r + pad) == r
  {
  }

  lemma RoundTrip(e: Engine, b: bytes)
    ensures Decode(e, Encode(e, b)) == Some(b)
  {
    RawRoundTrip(e.url, b);
    StripPaddingOfEncoding(e.url, b);
    assert EncodeRaw(e.url, b) + [] == EncodeRaw(e.url, b);
  }

  /** Every engine accepts exactly its own encodings, so texts and values correspond one to one. */
  lemma DecodeIff(e: Engine, s: bytes, b: bytes)
    ensures Decode(e, s) == Some(b) <==> s == Encode(e, b)
  {
    RoundTrip(e, b);
    if Decode(e, s) == Some(b) {
      var raw := if e.padded then StripPadding(s) else s;
      RawCanonical(e.url, raw);
      RawSymbols(e.url, b);
      if e.padded {
        PaddingDetermined(s, raw, b);
      } else {
        assert EncodeRaw(e.url, b) + [] == s;
      }
    }
  }

  lemma PaddingDetermined(s: bytes, raw: bytes, b: bytes)
    requires |s| % 4 == 0 && raw == StripPadding(s)
    requires |raw| % 4 == (if |b| % 3 == 0 then 0 else |b| % 3 + 1)
    ensures s == raw + Padding(|b|)
  {
  }

  // ---------- the permissive decoder ----------

  /** The two alphabets agree on every text both accept. */
  lemma {:induction false} AlphabetsAgree(s: bytes)
    requires DecodeRaw(true, s).Some? && DecodeRaw(false, s).Some?
    ensures DecodeRaw(true, s) == DecodeRaw(false, s)
  {
    if |s| > 4 {
      AlphabetsAgree(s[4..]);
    }
  }

  lemma {:induction false} RawHasNoPadding(url: bool, s: bytes)
    requires DecodeRaw(url, s).Some?
    ensures StripPadding(s) == s
  {
    RawCanonical(url, s);
    RawSymbols(url, DecodeRaw(url, s).value);
  }

  /** Two engines that both accept a text read the same value from it. */
  lemma EnginesAgree(e: Engine, f: Engine, s: bytes)
    requires Decode(e, s).Some? && Decode(f, s).Some?
    ensures Decode(e, s) == Decode(f, s)
  {
    if !e.padded {
      RawHasNoPadding(e.url, s);
    }
    if !f.padded {
      RawHasNoPadding(f.url, s);
    }
    if e.url != f.url {
      AlphabetsAgree(StripPadding(s));
    }
  }

  /** The result does not depend on the order of the trials: any engine that accepts gives the answer. */
  lemma PermissiveOrderIrrelevant(input: bytes)
    ensures forall e :: Decode(e, Clean(input)).Some? ==> DecodePermissive(input) == Decode(e, Clean(input))
    ensures DecodePermissive(input) == None <==> forall e :: Decode(e, Clean(input)) == None
  {
    var s := Clean(input);
    forall e | Decode(e, s).Some?
      ensures DecodePermissive(input) == Decode(e, s)
    {
      assert e in {URL_SAFE_NO_PAD, URL_SAFE, STANDARD, STANDARD_NO_PAD};
      if Decode(URL_SAFE_NO_PAD, s).Some? {
        EnginesAgree(e, URL_SAFE_NO_PAD, s);
      } else if Decode(URL_SAFE, s).Some? {
        EnginesAgree(e, URL_SAFE, s);
      } else if Decode(STANDARD, s).Some? {
        EnginesAgree(e, STANDARD, s);
      } else {
        EnginesAgree(e, STANDARD_NO_PAD, s);
      }
    }
  }

  /** Any insertion of white space into any encoding of b decodes to b. */
  lemma PermissiveInverts(e: Engine, b: bytes, input: bytes)
    requires Clean(input) == Encode(e, b)
    ensures DecodePermissive(input) == Some(b)
  {
    RoundTrip(e, b);
    PermissiveOrderIrrelevant(input);
  }

  lemma {:induction false} CleanFixes(s: bytes)
    requires forall c :: c in s ==> !IsWhitespace(c)
    ensures Clean(s) == s
  {
    if s != [] {
      CleanFixes(s[1..]);
      assert s == [s[0]] + s[1..];
    }
  }

  lemma EncodeIsClean(e: Engine, b: bytes)
    ensures Clean(Encode(e, b)) == Encode(e, b)
    ensures forall c :: c in Encode(e, b) ==> IsSymbol(e.url, c) || c == PAD
  {
    RawSymbols(e.url, b);
    CleanFixes(Encode(e, b));
  }
}
