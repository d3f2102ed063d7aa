/** PEM armour: the printer and the two separate readers of src/crypto_parsing.rs and src/key_utils.rs. */
module Pem {
  import opened Base64
  import opened Bytes

  const LF: byte := 10
  const CR: byte := 13
  const DASH: byte := 45

  const BEGIN: bytes := B("-----BEGIN")
  const END: bytes := B("-----END")

  // ---------- text helpers ----------

  /** ASCII white space in the sense of `char::is_whitespace`. */
  predicate IsSpace(c: byte) {
    c == 32 || 9 <= c <= 13
  }

  function TrimStart(s: bytes): bytes {
    if s != [] && IsSpace(s[0]) then TrimStart(s[1..]) else s
  }

  function TrimEnd(s: bytes): bytes {
    if s != [] && IsSpace(s[|s| - 1]) then TrimEnd(s[..|s| - 1]) else s
  }

  function Trim(s: bytes): bytes {
    TrimEnd(TrimStart(s))
  }

  predicate At(s: bytes, p: bytes, i: int) {
    0 <= i && i + |p| <= |s| && s[i..i + |p|] == p
  }

  lemma AtIndex(s: bytes, p: bytes, i: int, j: int)
    requires 0 <= j < |p|
    ensures At(s, p, i) ==> 0 <= i && i + j < |s| && s[i + j] == p[j]
  {
  }

  predicate Contains(s: bytes, p: bytes) {
    exists i | 0 <= i <= |s| :: At(s, p, i)
  }

  /** The first occurrence of p at or after position i. */
  function FindFrom(s: bytes, p: bytes, i: nat): (r: Option<nat>)
    requires i <= |s|
    ensures r.Some? ==> i <= r.value && At(s, p, r.value) && forall k :: i <= k < r.value ==> !At(s, p, k)
    ensures r == None ==> forall k :: i <= k ==> !At(s, p, k)
    decreases |s| - i
  {
    if At(s, p, i) then Some(i) else if i == |s| then None else FindFrom(s, p, i + 1)
  }

  function Find(s: bytes, p: bytes): Option<nat> {
    FindFrom(s, p, 0)
  }

  /** `str::lines`: a line ends at LF, and a CR just before it is dropped. */
  function Lines(s: bytes): seq<bytes> {
    if s == [] then []
    else
      var i := Find(s, [LF]);
      if i == None then [s]
      else
        var line := s[..i.value];
        [if line != [] && line[|line| - 1] == CR then line[..|line| - 1] else line] + Lines(s[i.value + 1..])
  }

  function Join(lines: seq<bytes>): bytes {
    if lines == [] then [] else lines[0] + Join(lines[1..])
  }

  // ---------- the printer ----------

  function Chunks(s: bytes): seq<bytes> {
    if |s| <= 64 then (if s == [] then [] else [s]) else [s[..64]] + Chunks(s[64..])
  }

  function Terminated(lines: seq<bytes>): bytes {
    if lines == [] then [] else lines[0] + [LF] + Terminated(lines[1..])
  }

  function Header(tag: bytes): bytes {
    B("-----BEGIN ") + tag + B("-----")
  }

  function Footer(tag: bytes): bytes {
    B("-----END ") + tag + B("-----")
  }

  function Body(data: bytes): bytes {
    Terminated(Chunks(Encode(STANDARD, data)))
  }

  function PemText(tag: bytes, data: bytes): bytes {
    Header(tag) + [LF] + (Body(data) + (Footer(tag) + [LF]))
  }

  method ToPem(tag: bytes, data: bytes) returns (pem: bytes)
    ensures pem == PemText(tag, data)
  {
    hide B, Encode;
    pem := Header(tag) + [LF];
    ghost var start := pem;
    var rest := Encode(STANDARD, data);
    while rest != []
      invariant pem + Terminated(Chunks(rest)) == start + Body(data)
      decreases |rest|
    {
      var n := if |rest| < 64 then |rest| else 64;
      var chunk := rest[..n];
      assert rest[..|rest|] == rest;
      assert Chunks(rest) == [chunk] + Chunks(rest[n..]);
      assert pem + (chunk + [LF] + Terminated(Chunks(rest[n..]))) == pem + chunk + [LF] + Terminated(Chunks(rest[n..]));
      pem := pem + chunk;
      pem := pem + [LF];
      rest := rest[n..];
    }
    assert pem == start + Body(data);
    pem := pem + (Footer(tag) + [LF]);
  }

  // ---------- the readers ----------

  predicate Armour(line: bytes) {
    Contains(line, BEGIN) || Contains(line, END)
  }

  /** The lines that are not armour, joined. */
  function Unarmoured(lines: seq<bytes>): bytes {
    if lines == [] then [] else (if Armour(lines[0]) then [] else lines[0]) + Unarmoured(lines[1..])
  }

  /** `decode_key_bytes`, where `utf8` decides whether bytes are valid UTF-8. */
  function DecodeKeyBytes(data: bytes, utf8: bytes -> bool): bytes {
    var trimmed := Trim(if utf8(data) then data else []);
    if At(trimmed, BEGIN, 0) && Decode(STANDARD, Unarmoured(Lines(trimmed))).Some?
    then Decode(STANDARD, Unarmoured(Lines(trimmed))).value
    else data
  }

  /** A line's characters without white space and in the standard alphabet. */
  function Standardised(line: bytes): bytes {
    if line == [] then []
    else
      var c: byte := if line[0] == 45 then 43 else if line[0] == 95 then 47 else line[0];
      (if IsSpace(line[0]) then [] else [c]) + Standardised(line[1..])
  }

  /** The lines without a colon, cleaned and joined. */
  function BodyText(lines: seq<bytes>): bytes {
    if lines == [] then []
    else (if 58 in lines[0] then [] else Standardised(Trim(lines[0]))) + BodyText(lines[1..])
  }

  datatype PemError = MissingHeader | MissingFooter | EmptyBody | InvalidBase64

  /** The DER that `pem_to_jwk` extracts from a PEM text. */
  function PemDer(s: bytes): Result<bytes, PemError> {
    var start, end := Find(s, BEGIN), Find(s, END);
    if start == None then Err(MissingHeader)
    else if end == None then Err(MissingFooter)
    else
      var eol := FindFrom(s, [LF], start.value);
      var body := if eol.Some? then eol.value + 1 else start.value;
      if body >= end.value then Err(EmptyBody)
      else
        var der := Decode(STANDARD, BodyText(Lines(s[body..end.value])));
        if der == None then Err(InvalidBase64) else Ok(der.value)
  }

  // ---------- lines of a printed text ----------

  predicate NoLf(s: bytes) {
    forall i :: 0 <= i < |s| ==> s[i] != LF
  }

  lemma FirstLf(a: bytes, rest: bytes)
    requires NoLf(a)
    ensures Find(a + [LF] + rest, [LF]) == Some(|a|)
  {
    var s := a + [LF] + rest;
    assert s[|a|..|a| + 1] == [LF];
    assert At(s, [LF], |a|);
    forall k | 0 <= k < |a|
      ensures !At(s, [LF], k)
    {
      AtIndex(s, [LF], k, 0);
      assert s[k] == a[k];
    }
  }

  lemma LinesCons(a: bytes, rest: bytes)
    requires NoLf(a) && (a == [] || a[|a| - 1] != CR)
    ensures Lines(a + [LF] + rest) == [a] + Lines(rest)
  {
    FirstLf(a, rest);
    var s := a + [LF] + rest;
    assert s[..|a|] == a && s[|a| + 1..] == rest;
  }

  lemma LinesLast(a: bytes)
    requires NoLf(a) && a != []
    ensures Lines(a) == [a]
  {
    forall k | 0 <= k
      ensures !At(a, [LF], k)
    {
      AtIndex(a, [LF], k, 0);
    }
  }

  /** Base64 lines: only symbols of the standard alphabet and padding. */
  predicate Symbols(s: bytes) {
    forall i :: 0 <= i < |s| ==> IsSymbol(false, s[i]) || s[i] == PAD
  }

  lemma {:induction false} ChunksOfSymbols(s: bytes)
    requires Symbols(s)
    ensures forall i :: 0 <= i < |Chunks(s)| ==> Chunks(s)[i] != [] && Symbols(Chunks(s)[i])
    ensures Join(Chunks(s)) == s
  {
    if |s| > 64 {
      ChunksOfSymbols(s[64..]);
      assert s == s[..64] + s[64..];
    } else if s != [] {
      assert Chunks(s)[1..] == [];
      assert Join([s]) == s + [];
    }
  }

  lemma {:induction false} LinesOfChunks(lines: seq<bytes>, tail: bytes)
    requires forall i :: 0 <= i < |lines| ==> lines[i] != [] && Symbols(lines[i])
    ensures Lines(Terminated(lines) + tail) == lines + Lines(tail)
  {
    hide Lines, Symbols;
    if lines == [] {
      assert Terminated(lines) + tail == tail;
    } else {
      LinesOfChunks(lines[1..], tail);
      SymbolsPlain(lines[0]);
      LinesCons(lines[0], Terminated(lines[1..]) + tail);
      Regroup(lines[0], Terminated(lines[1..]), tail);
      assert lines + Lines(tail) == [lines[0]] + (lines[1..] + Lines(tail));
    }
  }

  lemma Regroup(a: bytes, b: bytes, c: bytes)
    ensures a + [LF] + b + c == a + [LF] + (b + c)
  {
  }

  lemma SymbolsPlain(s: bytes)
    requires Symbols(s)
    ensures NoLf(s) && forall i :: 0 <= i < |s| ==>
            s[i] != CR && s[i] != DASH && s[i] != 58 && s[i] != 95 && !IsSpace(s[i])
  {
  }

  lemma NoDashNoArmour(s: bytes)
    requires forall i :: 0 <= i < |s| ==> s[i] != DASH
    ensures !Armour(s)
  {
    assert BEGIN[0] == DASH && END[0] == DASH;
    forall i | 0 <= i <= |s|
      ensures !At(s, BEGIN, i) && !At(s, END, i)
    {
      AtIndex(s, BEGIN, i, 0);
      AtIndex(s, END, i, 0);
    }
  }

  lemma {:induction false} UnarmouredChunks(lines: seq<bytes>, last: bytes)
    requires forall i :: 0 <= i < |lines| ==> Symbols(lines[i])
    requires Armour(last)
    ensures Unarmoured(lines + [last]) == Join(lines)
  {
    if lines == [] {
      assert (lines + [last])[1..] == [];
    } else {
      UnarmouredChunks(lines[1..], last);
      assert (lines + [last])[1..] == lines[1..] + [last];
      SymbolsPlain(lines[0]);
      NoDashNoArmour(lines[0]);
    }
  }

  lemma HeaderFooter(tag: bytes)
    ensures Header(tag) != [] && Header(tag)[0] == DASH && Header(tag)[|Header(tag)| - 1] == DASH
    ensures Footer(tag) != [] && Footer(tag)[0] == DASH && Footer(tag)[|Footer(tag)| - 1] == DASH
    ensures NoLf(tag) ==> NoLf(Header(tag)) && NoLf(Footer(tag))
  {
  }

  lemma HeaderFooterMarks(tag: bytes)
    ensures At(Header(tag), BEGIN, 0) && At(Footer(tag), END, 0)
    ensures Armour(Header(tag)) && Armour(Footer(tag))
  {
    assert Header(tag)[0..|BEGIN|] == BEGIN;
    assert Footer(tag)[0..|END|] == END;
    assert At(Header(tag), BEGIN, 0) && At(Footer(tag), END, 0);
  }

  lemma EncodedSymbols(data: bytes)
    ensures Symbols(Encode(STANDARD, data))
  {
    EncodeIsClean(STANDARD, data);
    forall i | 0 <= i < |Encode(STANDARD, data)|
      ensures IsSymbol(false, Encode(STANDARD, data)[i]) || Encode(STANDARD, data)[i] == PAD
    {
      assert Encode(STANDARD, data)[i] in Encode(STANDARD, data);
    }
  }

  /** Trimming a text framed by dashes removes exactly the final line feed. */
  lemma TrimFramed(s: bytes)
    requires s != [] && s[0] == DASH && s[|s| - 1] == DASH
    ensures Trim(s + [LF]) == s
  {
    assert (s + [LF])[..|s|] == s;
    assert TrimEnd(s) == s;
  }

  /** `decode_key_bytes` undoes `to_pem` for every newline-free tag and every data. */
  lemma PemRoundTrip(tag: bytes, data: bytes, utf8: bytes -> bool)
    requires NoLf(tag) && utf8(PemText(tag, data))
    ensures DecodeKeyBytes(PemText(tag, data), utf8) == data
  {
    hide Header, Footer, Body, Trim, Lines, Unarmoured, Decode;
    var t := Header(tag) + [LF] + (Body(data) + Footer(tag));
    HeaderFooter(tag);
    HeaderFooterMarks(tag);
    assert PemText(tag, data) == t + [LF];
    TrimFramed(t);
    assert At(t, BEGIN, 0) by {
      assert t[0..|BEGIN|] == Header(tag)[0..|BEGIN|];
    }
    UnarmouredText(tag, data);
    RoundTrip(STANDARD, data);
  }

  lemma UnarmouredText(tag: bytes, data: bytes)
    requires NoLf(tag)
    ensures Unarmoured(Lines(Header(tag) + [LF] + (Body(data) + Footer(tag)))) == Encode(STANDARD, data)
  {
    hide Encode, Header, Footer, Armour, Lines, Symbols;
    var chunks := Chunks(Encode(STANDARD, data));
    HeaderFooter(tag);
    HeaderFooterMarks(tag);
    EncodedSymbols(data);
    ChunksOfSymbols(Encode(STANDARD, data));
    LinesCons(Header(tag), Body(data) + Footer(tag));
    LinesOfChunks(chunks, Footer(tag));
    LinesLast(Footer(tag));
    UnarmouredChunks(chunks, Footer(tag));
    var lines := [Header(tag)] + (chunks + [Footer(tag)]);
    assert lines[1..] == chunks + [Footer(tag)];
  }

  // ---------- the second reader ----------

  /** No occurrence of END starts before the footer, unless the tag holds one. */
  lemma EndInHeader(tag: bytes, i: nat)
    requires At(Header(tag), END, i)
    ensures Contains(tag, END)
  {
    hide At, Contains;
    var h := Header(tag);
    EndLetters();
    AtIndex(h, END, i, 0);
    AtIndex(h, END, i, 4);
    AtIndex(h, END, i, 7);
    HeaderLetters(tag);
    assert i >= 11;
    assert i + 8 <= 11 + |tag|;
    EndWithin(tag, i);
  }

  lemma EndLetters()
    ensures |END| == 8 && END[0] == DASH && END[4] == DASH && END[7] == 68
    ensures forall j :: 0 <= j < |END| ==> END[j] != LF
  {
  }

  lemma HeaderLetters(tag: bytes)
    ensures var h := Header(tag);
            |h| == 16 + |tag| && h[5] == 66 && h[6] == 69 && h[7] == 71 && h[8] == 73 && h[9] == 78 && h[10] == 32 &&
            forall k :: 11 + |tag| <= k < |h| ==> h[k] == DASH
  {
  }

  lemma EndWithin(tag: bytes, i: nat)
    requires At(Header(tag), END, i) && i >= 11 && i + 8 <= 11 + |tag|
    ensures Contains(tag, END)
  {
    assert tag[i - 11..i - 11 + 8] == Header(tag)[i..i + 8];
    assert At(tag, END, i - 11);
  }

  lemma EndInTag(tag: bytes, i: int)
    requires At(tag, END, i)
    ensures At(Header(tag), END, i + 11)
  {
  }

  /** The first END of a printed text: in the header if the tag holds one, else at the footer. */
  lemma FirstEnd(tag: bytes, data: bytes)
    requires NoLf(tag)
    ensures var s := PemText(tag, data);
            Find(s, END).Some? &&
            (if Contains(tag, END) then Find(s, END).value < |Header(tag)|
             else Find(s, END).value == |Header(tag)| + 1 + |Body(data)|)
  {
    hide B, Header, Footer;
    var s, h := PemText(tag, data), |Header(tag)|;
    var foot := h + 1 + |Body(data)|;
    HeaderFooterMarks(tag);
    assert At(s, END, foot) by {
      assert s[foot..foot + |END|] == Footer(tag)[0..|END|];
    }
    if Contains(tag, END) {
      var i :| 0 <= i <= |tag| && At(tag, END, i);
      EndInTag(tag, i);
      assert At(s, END, i + 11) by {
        assert s[i + 11..i + 11 + |END|] == Header(tag)[i + 11..i + 11 + |END|];
      }
    } else {
      forall k | 0 <= k < foot
        ensures !At(s, END, k)
      {
        NoEarlyEnd(tag, data, k);
      }
    }
  }

  lemma NoEarlyEnd(tag: bytes, data: bytes, k: nat)
    requires NoLf(tag) && !Contains(tag, END) && k < |Header(tag)| + 1 + |Body(data)|
    ensures !At(PemText(tag, data), END, k)
  {
    hide Header, Footer, Body, At;
    var s, h := PemText(tag, data), |Header(tag)|;
    EndLetters();
    assert s[h] == LF;
    if k <= h < k + |END| {
      AtIndex(s, END, k, h - k);
    } else if k + |END| <= h {
      InHeader(tag, data, k);
      if At(s, END, k) {
        EndInHeader(tag, k);
      }
    } else {
      BodyHasNoDash(data);
      AtIndex(s, END, k, 0);
      assert s[k] == Body(data)[k - h - 1];
    }
  }

  lemma InHeader(tag: bytes, data: bytes, k: nat)
    requires k + |END| <= |Header(tag)|
    ensures At(PemText(tag, data), END, k) ==> At(Header(tag), END, k)
  {
  }

  lemma BodyHasNoDash(data: bytes)
    ensures forall i :: 0 <= i < |Body(data)| ==> Body(data)[i] != DASH
  {
    EncodedSymbols(data);
    ChunksOfSymbols(Encode(STANDARD, data));
    TerminatedHasNoDash(Chunks(Encode(STANDARD, data)));
  }

  lemma {:induction false} TerminatedHasNoDash(lines: seq<bytes>)
    requires forall i :: 0 <= i < |lines| ==> Symbols(lines[i])
    ensures forall i :: 0 <= i < |Terminated(lines)| ==> Terminated(lines)[i] != DASH
  {
    if lines != [] {
      TerminatedHasNoDash(lines[1..]);
      SymbolsPlain(lines[0]);
    }
  }

  lemma {:induction false} StandardisedSymbols(s: bytes)
    requires Symbols(s)
    ensures Standardised(s) == s
  {
    SymbolsPlain(s);
    if s != [] {
      assert Symbols(s[1..]);
      StandardisedSymbols(s[1..]);
    }
  }

  lemma TrimSymbols(s: bytes)
    requires Symbols(s)
    ensures Trim(s) == s
  {
  }

  lemma {:induction false} BodyTextOfChunks(lines: seq<bytes>)
    requires forall i :: 0 <= i < |lines| ==> Symbols(lines[i])
    ensures BodyText(lines) == Join(lines)
  {
    if lines != [] {
      SymbolsPlain(lines[0]);
      TrimSymbols(lines[0]);
      StandardisedSymbols(lines[0]);
      BodyTextOfChunks(lines[1..]);
    }
  }

  /**
   The extractor of `pem_to_jwk` recovers the same DER exactly when there is some and the tag does not
   itself contain the footer mark.
   */
  lemma PemExtractIff(tag: bytes, data: bytes)
    requires NoLf(tag)
    ensures PemDer(PemText(tag, data)) == Ok(data) <==> data != [] && !Contains(tag, END)
  {
    hide B, Encode, Decode, Header, Footer, Body, Contains, Find, Lines, BodyText;
    var s, h := PemText(tag, data), |Header(tag)|;
    HeaderFooter(tag);
    FirstEnd(tag, data);
    BeginsAtZero(tag, data);
    FirstLineEnd(tag, data);
    BodyEmptyIff(data);
    if !Contains(tag, END) && data != [] {
      assert s[h + 1..h + 1 + |Body(data)|] == Body(data);
      BodyReads(data);
    }
  }

  lemma FirstLineEnd(tag: bytes, data: bytes)
    requires NoLf(tag)
    ensures FindFrom(PemText(tag, data), [LF], 0) == Some(|Header(tag)|)
  {
    hide Header, Footer, Body;
    HeaderFooter(tag);
    FirstLf(Header(tag), Body(data) + (Footer(tag) + [LF]));
  }

  lemma BeginsAtZero(tag: bytes, data: bytes)
    ensures Find(PemText(tag, data), BEGIN) == Some(0)
  {
  }

  lemma BodyEmptyIff(data: bytes)
    ensures Body(data) == [] <==> data == []
  {
  }

  lemma BodyReads(data: bytes)
    ensures Decode(STANDARD, BodyText(Lines(Body(data)))) == Some(data)
  {
    hide Encode;
    var chunks := Chunks(Encode(STANDARD, data));
    EncodedSymbols(data);
    ChunksOfSymbols(Encode(STANDARD, data));
    LinesOfChunks(chunks, []);
    assert Terminated(chunks) + [] == Terminated(chunks);
    assert chunks + Lines([]) == chunks;
    BodyTextOfChunks(chunks);
    RoundTrip(STANDARD, data);
  }
}
