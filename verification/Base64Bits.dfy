/** What the base64 texts are, stated over 24-bit groups and the alphabets of RFC 4648 themselves. */
module Base64Bits {
  import opened Base64
  import opened Bytes

  /** base64url without padding, as JOSE and PASETO use it */
  function Text64(b: bytes): bytes {
    Encode(Engine(true, false), b)
  }

  /** Tables 1 and 2 of RFC 4648: c is the character of value v. */
  predicate Row(url: bool, v: nat, c: byte) {
    (v < 26 && c == 'A' as int + v) || (26 <= v < 52 && c == 'a' as int + v - 26) ||
    (52 <= v < 62 && c == '0' as int + v - 52) || (v == 62 && c == (if url then '-' else '+') as int) ||
    (v == 63 && c == (if url then '_' else '/') as int)
  }

  function Octet(b: bytes, i: nat): nat {
    if i < |b| then b[i] else 0
  }

  function Digit(vs: seq<nat>, i: nat): nat {
    if i < |vs| then vs[i] else 0
  }

  /** The 24 bits of group j are the same, read as three octets or as four digits. */
  predicate SameGroup(b: bytes, vs: seq<nat>, j: nat) {
    (Octet(b, 3 * j) * 256 + Octet(b, 3 * j + 1)) * 256 + Octet(b, 3 * j + 2) ==
    ((Digit(vs, 4 * j) * 64 + Digit(vs, 4 * j + 1)) * 64 + Digit(vs, 4 * j + 2)) * 64 + Digit(vs, 4 * j + 3)
  }

  /** The text r holds the characters of the digits vs, which carry the bits of b. */
  ghost predicate Digits(url: bool, b: bytes, r: bytes, vs: seq<nat>) {
    |r| == |vs| == (8 * |b| + 5) / 6 && (forall i :: 0 <= i < |vs| ==> Row(url, vs[i], r[i])) &&
    forall j :: 0 <= 3 * j < |b| ==> SameGroup(b, vs, j)
  }

  lemma SplitValue(x: byte, y: byte, z: byte)
    ensures var (v0, v1, v2, v3) := Split(x, y, z);
            v0 < 64 && v1 < 64 && v2 < 64 && v3 < 64 &&
            (x * 256 + y) * 256 + z == ((v0 * 64 + v1) * 64 + v2) * 64 + v3
  {
  }

  lemma SymbolRow(url: bool, v: nat)
    requires v < 64
    ensures Row(url, v, Symbol(url, v))
  {
  }

  lemma FirstGroup(b: bytes, vs: seq<nat>, x: nat, y: nat, z: nat, v0: nat, v1: nat, v2: nat, v3: nat)
    requires (x * 256 + y) * 256 + z == ((v0 * 64 + v1) * 64 + v2) * 64 + v3
    requires Octet(b, 0) == x && Octet(b, 1) == y && Octet(b, 2) == z
    requires Digit(vs, 0) == v0 && Digit(vs, 1) == v1 && Digit(vs, 2) == v2 && Digit(vs, 3) == v3
    ensures SameGroup(b, vs, 0)
  {
  }

  lemma BlockDigits(url: bool, b: bytes) returns (vs: seq<nat>)
    requires 1 <= |b| <= 3
    ensures Digits(url, b, EncodeBlock(url, b), vs)
  {
    hide Symbol, Row, Split, SameGroup;
    var x: byte, y: byte, z: byte := b[0], if |b| > 1 then b[1] else 0, if |b| > 2 then b[2] else 0;
    SplitValue(x, y, z);
    JoinSplit(x, y, z);
    var (v0, v1, v2, v3) := Split(x, y, z);
    vs := FourDigits(url, v0, v1, v2, v3);
    vs := vs[..|b| + 1];
    FirstGroup(b, vs, x, y, z, v0, v1, v2, v3);
  }

  lemma FourDigits(url: bool, v0: nat, v1: nat, v2: nat, v3: nat) returns (vs: seq<nat>)
    requires v0 < 64 && v1 < 64 && v2 < 64 && v3 < 64
    ensures vs == [v0, v1, v2, v3]
    ensures var r := [Symbol(url, v0), Symbol(url, v1), Symbol(url, v2), Symbol(url, v3)];
            forall i :: 0 <= i < 4 ==> Row(url, vs[i], r[i])
  {
    hide Symbol, Row;
    vs := [v0, v1, v2, v3];
    SymbolRow(url, v0);
    SymbolRow(url, v1);
    SymbolRow(url, v2);
    SymbolRow(url, v3);
  }

  lemma GroupShift(h: bytes, t: bytes, vh: seq<nat>, vt: seq<nat>, j: nat)
    requires |h| == 3 && |vh| == 4
    ensures SameGroup(h + t, vh + vt, j) == if j == 0 then SameGroup(h, vh, 0) else SameGroup(t, vt, j - 1)
  {
  }

  lemma {:induction false} RawDigits(url: bool, b: bytes) returns (vs: seq<nat>)
    ensures Digits(url, b, EncodeRaw(url, b), vs)
  {
    hide EncodeBlock, SameGroup, Row;
    if b == [] {
      vs := [];
    } else if |b| <= 3 {
      vs := BlockDigits(url, b);
    } else {
      var h, t := b[..3], b[3..];
      var vh := BlockDigits(url, h);
      var vt := RawDigits(url, t);
      assert b == h + t;
      vs := vh + vt;
      forall j | 0 <= 3 * j < |b|
        ensures SameGroup(b, vs, j)
      {
        GroupShift(h, t, vh, vt, j);
      }
    }
  }

  /** An encoding is the characters of its digits, filled up with '=' to a multiple of four if the engine pads. */
  lemma EncodingIs(e: Engine, b: bytes) returns (r: bytes, pad: bytes, vs: seq<nat>)
    ensures Encode(e, b) == r + pad && Digits(e.url, b, r, vs)
    ensures (forall c :: c in pad ==> c == '=' as int) && |pad| == if e.padded then (4 - |r| % 4) % 4 else 0
  {
    hide EncodeRaw, Digits;
    r := EncodeRaw(e.url, b);
    pad := if e.padded then Padding(|b|) else [];
    vs := RawDigits(e.url, b);
    RawSymbols(e.url, b);
  }

  lemma CleanFirst(s: bytes)
    requires s != []
    ensures Clean(s) == (if IsWhitespace(s[0]) then [] else [s[0]]) + Clean(s[1..])
  {
  }

  lemma Regroup(a: bytes, b: bytes, c: bytes)
    ensures a + (b + c) == (a + b) + c
  {
  }

  /** White space is what is removed, and nothing else. */
  lemma {:induction false} CleanParts(a: bytes, b: bytes)
    ensures Clean(a + b) == Clean(a) + Clean(b)
  {
    hide IsWhitespace, Clean;
    if a == [] {
      assert [] + b == b;
      NothingClean();
    } else {
      CleanParts(a[1..], b);
      assert (a + b)[1..] == a[1..] + b;
      CleanFirst(a + b);
      CleanFirst(a);
      Regroup(if IsWhitespace(a[0]) then [] else [a[0]], Clean(a[1..]), Clean(b));
    }
  }

  lemma NothingClean()
    ensures Clean([]) == []
  {
  }

  lemma CleanOne(c: byte)
    ensures Clean([c]) == if c in {9, 10, 12, 13, 32} then [] else [c]
  {
    assert Clean([c][1..]) == [];
  }
}
