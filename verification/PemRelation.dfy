/**
 PEM texts, OpenSSH key lines and `pem_to_jwk` as relations over literal marks, labels and names, without the functions
 of modules Pem, Ssh and PemKeys that print, cut or convert; and the theorems that the code computes these relations.
 */
module PemRelation {
  import opened Base64
  import opened Bytes
  import opened Pem
  import Der
  import Json
  import Kdf
  import KeyDispatch
  import KeyFormats
  import KeyRelation
  import ParserRelation
  import PemKeys
  import Ssh

  // ---------- printed texts ----------

  /** One after the other. */
  function Glued(lines: seq<bytes>): bytes {
    if lines == [] then [] else lines[0] + Glued(lines[1..])
  }

  /** Each followed by a line feed. */
  function Ended(lines: seq<bytes>): bytes {
    if lines == [] then [] else lines[0] + B("\n") + Ended(lines[1..])
  }

  /** Lines of 64 characters, the last of at most 64 and not empty. */
  predicate Lines64(lines: seq<bytes>) {
    forall i :: 0 <= i < |lines| ==> 0 < |lines[i]| <= 64 && (i < |lines| - 1 ==> |lines[i]| == 64)
  }

  /** Section 2 of RFC 7468. */
  ghost predicate IsPem(tag: bytes, data: bytes, text: bytes) {
    exists lines ::
      Lines64(lines) && Glued(lines) == Encode(Engine(false, true), data) &&
      text == B("-----BEGIN ") + tag + B("-----\n") + Ended(lines) + B("-----END ") + tag + B("-----\n")
  }

  lemma {:induction false} ChunksAre(s: bytes)
    ensures Lines64(Chunks(s)) && Glued(Chunks(s)) == s && Ended(Chunks(s)) == Terminated(Chunks(s))
  {
    assert B("\n") == [LF];
    if |s| > 64 {
      ChunksAre(s[64..]);
      ChunksNotEmpty(s[64..]);
      assert Chunks(s)[1..] == Chunks(s[64..]);
      assert s == s[..64] + s[64..];
    } else if s != [] {
      assert Chunks(s)[1..] == [];
      assert s + [] == s;
    }
  }

  lemma ChunksNotEmpty(s: bytes)
    requires s != []
    ensures Chunks(s) != []
  {
  }

  lemma {:induction false} OnlyChunks(lines: seq<bytes>)
    requires Lines64(lines)
    ensures lines == Chunks(Glued(lines))
  {
    if lines != [] {
      var tail := lines[1..];
      OnlyChunks(tail);
      if tail == [] {
        assert lines[0] + [] == lines[0];
        assert lines == [lines[0]];
      } else {
        assert Glued(tail) == tail[0] + Glued(tail[1..]);
        var s := lines[0] + Glued(tail);
        assert s[..64] == lines[0] && s[64..] == Glued(tail);
        assert lines == [lines[0]] + tail;
      }
    }
  }

  lemma Marks(tag: bytes)
    ensures B("-----BEGIN ") + tag + B("-----\n") == Header(tag) + [LF]
    ensures B("-----END ") + tag + B("-----\n") == Footer(tag) + [LF]
  {
    assert B("-----\n") == B("-----") + [LF];
  }

  /** `to_pem` */
  lemma PemTextIff(tag: bytes, data: bytes, text: bytes)
    ensures text == PemText(tag, data) <==> IsPem(tag, data, text)
  {
    hide B, Encode, Header, Footer, Lines64, Chunks;
    var code := Encode(Engine(false, true), data);
    ChunksAre(code);
    Marks(tag);
    Regroup4(B("-----BEGIN ") + tag + B("-----\n"), Ended(Chunks(code)), B("-----END "), tag, B("-----\n"));
    if text == PemText(tag, data) {
      assert Lines64(Chunks(code)) && Glued(Chunks(code)) == code;
    }
    forall lines | Lines64(lines) && Glued(lines) == code
      ensures lines == Chunks(code)
    {
      OnlyChunks(lines);
    }
  }

  lemma Regroup4(a: bytes, b: bytes, c: bytes, d: bytes, e: bytes)
    ensures a + b + c + d + e == a + (b + (c + d + e))
  {
  }

  // ---------- the armour that is read ----------

  /** p stands at i in s. */
  predicate Stands(s: bytes, p: bytes, i: int) {
    0 <= i && i + |p| <= |s| && s[i..i + |p|] == p
  }

  predicate First(s: bytes, p: bytes, from: nat, i: nat) {
    from <= i && Stands(s, p, i) && forall k :: from <= k < i ==> !Stands(s, p, k)
  }

  lemma FirstIs(s: bytes, p: bytes, from: nat, i: nat)
    requires from <= |s|
    ensures First(s, p, from, i) <==> FindFrom(s, p, from) == Some(i)
    ensures (forall k: nat :: k >= from ==> !Stands(s, p, k)) <==> FindFrom(s, p, from) == None
  {
    hide FindFrom;
    forall k: int
      ensures Stands(s, p, k) == At(s, p, k)
    {
    }
    var f := FindFrom(s, p, from);
    if f.Some? {
      assert Stands(s, p, f.value);
    }
  }

  predicate Space(c: byte) {
    c == ' ' as int || 9 <= c <= 13
  }

  /** A character that counts: white space does not, and the standard alphabet stands for the URL-safe one. */
  function KeptChar(c: byte): bytes {
    if Space(c) then []
    else if c == '-' as int then ['+' as byte]
    else if c == '_' as int then ['/' as byte]
    else [c]
  }

  function KeptChars(line: bytes): bytes {
    if line == [] then [] else KeptChar(line[0]) + KeptChars(line[1..])
  }

  /** Lines with a colon, the headers of RFC 1421, do not count at all. */
  function AllKept(segments: seq<bytes>): bytes {
    if segments == [] then []
    else (if ':' as int in segments[0] then [] else KeptChars(segments[0])) + AllKept(segments[1..])
  }

  /** The segments with line feeds between them. */
  function Between(segments: seq<bytes>): bytes
    requires segments != []
  {
    if |segments| == 1 then segments[0] else segments[0] + B("\n") + Between(segments[1..])
  }

  ghost predicate Kept(t: bytes, out: bytes) {
    exists segments ::
      segments != [] && (forall i :: 0 <= i < |segments| ==> '\n' as int !in segments[i]) &&
      t == Between(segments) && out == AllKept(segments)
  }

  lemma {:induction false} KeptIs(line: bytes)
    ensures KeptChars(line) == Standardised(line)
  {
    if line != [] {
      KeptIs(line[1..]);
    }
  }

  lemma KeptFirst(s: bytes)
    requires s != []
    ensures KeptChars(s) == KeptChar(s[0]) + KeptChars(s[1..])
  {
  }

  lemma {:induction false} KeptConcat(a: bytes, b: bytes)
    ensures KeptChars(a + b) == KeptChars(a) + KeptChars(b)
  {
    hide KeptChar, KeptChars;
    if a == [] {
      assert a + b == b;
      NothingKept();
    } else {
      KeptConcat(a[1..], b);
      assert (a + b)[1..] == a[1..] + b;
      KeptFirst(a + b);
      KeptFirst(a);
      assert KeptChar(a[0]) + (KeptChars(a[1..]) + KeptChars(b)) == KeptChar(a[0]) + KeptChars(a[1..]) + KeptChars(b);
    }
  }

  lemma {:induction false} KeptTrimStart(s: bytes)
    ensures KeptChars(TrimStart(s)) == KeptChars(s)
  {
    if s != [] && IsSpace(s[0]) {
      KeptTrimStart(s[1..]);
    }
  }

  lemma {:induction false} KeptTrimEnd(s: bytes)
    ensures KeptChars(TrimEnd(s)) == KeptChars(s)
  {
    hide KeptChars;
    if s != [] && IsSpace(s[|s| - 1]) {
      var init, last := s[..|s| - 1], s[|s| - 1];
      KeptTrimEnd(init);
      KeptConcat(init, [last]);
      assert s == init + [last];
      KeptSpace(last);
    }
  }

  lemma KeptSpace(c: byte)
    requires IsSpace(c)
    ensures KeptChars([c]) == []
  {
    assert KeptChars([c][1..]) == [];
  }

  lemma LineKept(line: bytes)
    ensures Standardised(Trim(line)) == KeptChars(line)
  {
    KeptIs(Trim(line));
    KeptTrimEnd(TrimStart(line));
    KeptTrimStart(line);
  }

  /** Dropping a final carriage return changes nothing that counts. */
  lemma CarriageReturn(line: bytes)
    requires line != [] && line[|line| - 1] == CR
    ensures KeptChars(line[..|line| - 1]) == KeptChars(line)
    ensures 58 in line[..|line| - 1] <==> 58 in line
  {
    var init := line[..|line| - 1];
    assert line == init + [CR];
    KeptConcat(init, [CR]);
    KeptSpace(CR);
  }

  lemma {:induction false} BodyIs(segments: seq<bytes>)
    requires segments != [] && forall i :: 0 <= i < |segments| ==> 10 !in segments[i]
    ensures BodyText(Lines(Between(segments))) == AllKept(segments)
  {
    hide KeptChars, Standardised, Trim, Find;
    var a := segments[0];
    assert NoLf(a);
    LineKept(a);
    assert B("\n") == [LF];
    if |segments| == 1 {
      assert segments[1..] == [];
      if a == [] {
        NothingKept();
      } else {
        LinesLast(a);
        var one: seq<bytes> := [a];
        assert one[1..] == [] && BodyText(one[1..]) == [];
      }
    } else {
      var rest := Between(segments[1..]);
      BodyIs(segments[1..]);
      LinesFirst(a, rest);
      var line := if a != [] && a[|a| - 1] == CR then a[..|a| - 1] else a;
      assert ([line] + Lines(rest))[1..] == Lines(rest);
      if a != [] && a[|a| - 1] == CR {
        CarriageReturn(a);
        LineKept(line);
      }
    }
  }

  lemma NothingKept()
    ensures KeptChars([]) == [] && Lines([]) == []
  {
  }

  lemma LinesFirst(a: bytes, rest: bytes)
    requires NoLf(a)
    ensures Lines(a + [LF] + rest)
         == [if a != [] && a[|a| - 1] == CR then a[..|a| - 1] else a] + Lines(rest)
  {
    FirstLf(a, rest);
    var s := a + [LF] + rest;
    assert s[..|a|] == a && s[|a| + 1..] == rest;
  }

  lemma {:induction false} Segments(t: bytes) returns (segments: seq<bytes>)
    ensures segments != [] && (forall i :: 0 <= i < |segments| ==> '\n' as int !in segments[i])
    ensures t == Between(segments)
  {
    assert B("\n") == [LF];
    if t == [] {
      segments := [[]];
    } else {
      var tail := Segments(t[1..]);
      if t[0] == LF {
        segments := [[]] + tail;
        assert segments[1..] == tail;
        assert t == [] + [LF] + t[1..];
      } else {
        segments := [[t[0]] + tail[0]] + tail[1..];
        assert segments[1..] == tail[1..];
        if |tail| == 1 {
          assert t == [t[0]] + tail[0];
        } else {
          assert t == [t[0]] + (tail[0] + [LF] + Between(tail[1..]));
        }
      }
    }
  }

  lemma KeptIff(t: bytes, out: bytes)
    ensures Kept(t, out) <==> out == BodyText(Lines(t))
  {
    hide BodyText, Lines, AllKept, Between;
    var segments := Segments(t);
    BodyIs(segments);
    if s :| s != [] && (forall i :: 0 <= i < |s| ==> '\n' as int !in s[i]) && t == Between(s) && out == AllKept(s) {
      BodyIs(s);
    }
  }

  /** Behind the line feed that ends the header line, or at the header if there is none. */
  predicate BodyStart(s: bytes, i: nat, b: nat) {
    if b > 0 && First(s, B("\n"), i, b - 1) then true
    else b == i && forall k: nat :: i <= k < |s| ==> s[k] != '\n' as int
  }

  /** What `pem_to_jwk` decodes between the first header and the first footer mark of a text. */
  ghost predicate Extracted(s: bytes, der: bytes) {
    exists i: nat, j: nat, b: nat ::
      First(s, B("-----BEGIN"), 0, i) && First(s, B("-----END"), 0, j) && BodyStart(s, i, b) && b < j &&
      Kept(s[b..j], Encode(Engine(false, true), der))
  }

  lemma BodyStartIs(s: bytes, i: nat, b: nat)
    requires i <= |s|
    ensures BodyStart(s, i, b) <==>
            b == if FindFrom(s, [LF], i).Some? then FindFrom(s, [LF], i).value + 1 else i
  {
    hide FindFrom;
    assert B("\n") == [LF];
    if b > 0 {
      FirstIs(s, [LF], i, b - 1);
    }
    FirstIs(s, [LF], i, i);
    forall k: nat
      ensures Stands(s, [LF], k) <==> k < |s| && s[k] == 10
    {
      if k < |s| {
        assert s[k..k + 1] == [s[k]];
      }
    }
  }

  lemma PemDerIff(s: bytes, der: bytes)
    ensures PemDer(s) == Ok(der) <==> Extracted(s, der)
  {
    hide B, FindFrom, First, BodyStart, Kept, BodyText, Lines, Encode, Decode;
    forall i: nat
      ensures First(s, B("-----BEGIN"), 0, i) <==> Find(s, BEGIN) == Some(i)
      ensures First(s, B("-----END"), 0, i) <==> Find(s, END) == Some(i)
    {
      FirstIs(s, B("-----BEGIN"), 0, i);
      FirstIs(s, B("-----END"), 0, i);
    }
    var start, end := Find(s, BEGIN), Find(s, END);
    if start.Some? && end.Some? {
      MarkBounds(s);
      var eol := FindFrom(s, [LF], start.value);
      var body := if eol.Some? then eol.value + 1 else start.value;
      forall b: nat
        ensures BodyStart(s, start.value, b) <==> b == body
      {
        BodyStartIs(s, start.value, b);
      }
      if body < end.value {
        var t := s[body..end.value];
        KeptIff(t, Encode(Engine(false, true), der));
        DecodeIff(STANDARD, BodyText(Lines(t)), der);
      }
    }
  }

  lemma MarkBounds(s: bytes)
    ensures Find(s, BEGIN).Some? ==> Find(s, BEGIN).value <= |s|
    ensures Find(s, END).Some? ==> Find(s, END).value <= |s|
  {
  }

  // ---------- OpenSSH lines ----------

  /** A word: at least one character and no white space. */
  predicate Word(w: bytes) {
    w != [] && forall c :: c in w ==> !Space(c)
  }

  predicate Gap(g: bytes) {
    forall c :: c in g ==> Space(c)
  }

  /** The line's first two words. */
  ghost predicate TwoWords(line: bytes, a: bytes, b: bytes) {
    exists lead, gap, tail :: Split(line, lead, a, gap, b, tail)
  }

  predicate Split(line: bytes, lead: bytes, a: bytes, gap: bytes, b: bytes, tail: bytes) {
    Gap(lead) && Word(a) && Gap(gap) && gap != [] && Word(b) && (tail == [] || Space(tail[0])) &&
    line == lead + a + gap + b + tail
  }

  /** A string behind its four-octet length. */
  ghost predicate StringAt(s: bytes, x: bytes, rest: bytes) {
    exists l :: Kdf.Be32(l, |x|) && |x| < 0x1_0000_0000 && s == l + x + rest
  }

  lemma StringAtIs(s: bytes, x: bytes, rest: bytes)
    ensures StringAt(s, x, rest) <==> Ssh.ReadString(s) == Some((x, rest))
  {
    hide FromBE;
    Kdf.Width4();
    if Ssh.ReadString(s) == Some((x, rest)) {
      var l := s[..4];
      FromBEBound(l);
      Small(FromBE(l), 0x1_0000_0000);
      assert s == l + x + rest;
    }
    if l :| Kdf.Be32(l, |x|) && |x| < 0x1_0000_0000 && s == l + x + rest {
      Small(|x|, 0x1_0000_0000);
      assert s[..4] == l && s[4..4 + |x|] == x && s[4 + |x|..] == rest;
    }
  }

  lemma Small(x: nat, m: nat)
    requires x < m
    ensures x % m == x
  {
  }

  lemma {:induction false} GapSkipped(g: bytes, rest: bytes)
    requires Gap(g)
    ensures Ssh.Words(g + rest) == Ssh.Words(rest)
  {
    if g == [] {
      assert g + rest == rest;
    } else {
      assert g[0] in g;
      assert (g + rest)[1..] == g[1..] + rest;
      GapSkipped(g[1..], rest);
    }
  }

  lemma {:induction false} LeadingGap(s: bytes) returns (g: bytes, rest: bytes)
    ensures Gap(g) && s == g + rest && (rest != [] ==> !Space(rest[0])) && Ssh.Words(rest) == Ssh.Words(s)
    ensures s != [] && Space(s[0]) ==> g != []
  {
    if s != [] && Space(s[0]) {
      g, rest := LeadingGap(s[1..]);
      g := [s[0]] + g;
    } else {
      g, rest := [], s;
    }
  }

  lemma {:induction false} FirstWord(s: bytes)
    ensures var n := Ssh.WordLength(s);
            (forall c :: c in s[..n] ==> !Space(c)) && (n < |s| ==> Space(s[n])) && (s != [] && !Space(s[0]) ==> n > 0)
  {
    if s != [] && !Space(s[0]) {
      FirstWord(s[1..]);
      var n := Ssh.WordLength(s[1..]);
      assert s[..1 + n] == [s[0]] + s[1..][..n];
    }
  }

  lemma NextWord(s: bytes) returns (gap: bytes, w: bytes, rest: bytes)
    requires Ssh.Words(s) != []
    ensures Gap(gap) && Word(w) && s == gap + (w + rest) && (rest == [] || Space(rest[0]))
    ensures Ssh.Words(s)[0] == w && Ssh.Words(s)[1..] == Ssh.Words(rest)
    ensures Space(s[0]) ==> gap != []
  {
    hide Gap, Ssh.WordLength;
    var t;
    gap, t := LeadingGap(s);
    FirstWord(t);
    w, rest := t[..Ssh.WordLength(t)], t[Ssh.WordLength(t)..];
    assert t == w + rest;
  }

  lemma TwoWordsRead(line: bytes)
    requires |Ssh.Words(line)| >= 2
    ensures TwoWords(line, Ssh.Words(line)[0], Ssh.Words(line)[1])
  {
    hide Gap, Word, Ssh.Words;
    var lead, a, t := NextWord(line);
    assert Ssh.Words(line)[1..][0] == Ssh.Words(line)[1];
    var gap, b, tail := NextWord(t);
    assert t != [] by {
      NoWords();
    }
    FiveInLine(lead, a, gap, b, tail);
    assert line == lead + a + gap + b + tail;
    assert Split(line, lead, a, gap, b, tail);
  }

  lemma FiveInLine(a: bytes, b: bytes, c: bytes, d: bytes, e: bytes)
    ensures a + (b + (c + (d + e))) == a + b + c + d + e
  {
  }

  lemma NoWords()
    ensures Ssh.Words([]) == []
  {
  }

  lemma WordSplits(w: bytes, rest: bytes)
    requires Word(w) && (rest == [] || Space(rest[0]))
    ensures Ssh.Words(w + rest) == [w] + Ssh.Words(rest)
  {
    assert forall i :: 0 <= i < |w| ==> w[i] in w;
    Ssh.WordsCons(w, rest);
  }

  lemma TwoWordsSplit(line: bytes, a: bytes, b: bytes)
    requires TwoWords(line, a, b)
    ensures |Ssh.Words(line)| >= 2 && Ssh.Words(line)[0] == a && Ssh.Words(line)[1] == b
  {
    hide Word;
    var lead, gap, tail :| Split(line, lead, a, gap, b, tail);
    FiveInLine(lead, a, gap, b, tail);
    GapSkipped(lead, a + (gap + (b + tail)));
    assert gap[0] in gap && (gap + (b + tail))[0] == gap[0];
    WordSplits(a, gap + (b + tail));
    GapSkipped(gap, b + tail);
    WordSplits(b, tail);
  }

  /** The curve arcs of the SSH curve names (RFC 5656, section 10.1). */
  function SshArcs(name: bytes): (r: Option<seq<nat>>)
    ensures r.Some? ==> |r.value| >= 2
  {
    if name == B("nistp256") then Some([1, 2, 840, 10045, 3, 1, 7])
    else if name == B("nistp384") then Some([1, 3, 132, 0, 34])
    else if name == B("nistp521") then Some([1, 3, 132, 0, 35])
    else None
  }

  /** RSA: exponent before modulus in the blob, modulus first in the RSAPublicKey. */
  ghost predicate RsaBlob(fields: bytes, pem: bytes) {
    exists e, n, r1, r2 ::
      StringAt(fields, e, r1) && StringAt(r1, n, r2) && e != [] && n != [] &&
      IsPem(B("RSA PUBLIC KEY"), Der.Tlv(0x30, KeyRelation.Int(FromBE(n)) + KeyRelation.Int(FromBE(e))), pem)
  }

  ghost predicate Ed25519Blob(fields: bytes, pem: bytes) {
    exists key, r ::
      StringAt(fields, key, r) && |key| == 32 &&
      IsPem(B("PUBLIC KEY"), Der.Tlv(0x30, Der.Tlv(0x30, Der.Tlv(0x06, KeyRelation.Oid([1, 3, 101, 112]))) +
                                           Der.Tlv(0x03, [0] + key)), pem)
  }

  ghost predicate EcdsaBlob(fields: bytes, pem: bytes) {
    exists curve, point, r1, r2 ::
      StringAt(fields, curve, r1) && StringAt(r1, point, r2) && SshArcs(curve).Some? &&
      IsPem(B("PUBLIC KEY"), Der.Tlv(0x30, Der.Tlv(0x30, Der.Tlv(0x06, KeyRelation.Oid(KeyRelation.EC_ARCS)) +
                                                         Der.Tlv(0x06, KeyRelation.Oid(SshArcs(curve).value))) +
                                           Der.Tlv(0x03, [0] + point)), pem)
  }

  /** A line of a type, a base64 blob and anything; RSA and Ed25519 blobs have to start with the type themselves. */
  ghost predicate Converts(line: bytes, pem: bytes) {
    exists kind, blob, header, fields ::
      TwoWords(line, kind, Encode(Engine(false, true), blob)) && StringAt(blob, header, fields) &&
      if kind == B("ssh-rsa") && header == B("ssh-rsa") then RsaBlob(fields, pem)
      else if kind == B("ssh-ed25519") && header == B("ssh-ed25519") then Ed25519Blob(fields, pem)
      else B("ecdsa-sha2-") <= kind && EcdsaBlob(fields, pem)
  }

  lemma RsaBlobIs(fields: bytes, pem: bytes)
    ensures RsaBlob(fields, pem) <==> Ssh.ConvertRsa(fields) == Ssh.Done(pem)
  {
    hide B, StringAt, IsPem, PemText, Ssh.ReadString, Der.Tlv, Der.IntContent;
    forall s, x, r
      ensures StringAt(s, x, r) <==> Ssh.ReadString(s) == Some((x, r))
    {
      StringAtIs(s, x, r);
    }
    var e := Ssh.ReadString(fields);
    if e.Some? && Ssh.ReadString(e.value.1).Some? {
      var n := Ssh.ReadString(e.value.1);
      assert StringAt(fields, e.value.0, e.value.1) && StringAt(e.value.1, n.value.0, n.value.1);
      PemTextIff(B("RSA PUBLIC KEY"),
                 Der.Tlv(0x30, KeyRelation.Int(FromBE(n.value.0)) + KeyRelation.Int(FromBE(e.value.0))), pem);
    }
  }

  lemma Ed25519BlobIs(fields: bytes, pem: bytes)
    ensures Ed25519Blob(fields, pem) <==> Ssh.ConvertEd25519(fields) == Ssh.Done(pem)
  {
    hide B, StringAt, IsPem, PemText, Ssh.ReadString, Der.Tlv, KeyRelation.Oid;
    KeyRelation.ArcsEdwards(112);
    forall s, x, r
      ensures StringAt(s, x, r) <==> Ssh.ReadString(s) == Some((x, r))
    {
      StringAtIs(s, x, r);
    }
    var key := Ssh.ReadString(fields);
    if key.Some? {
      assert StringAt(fields, key.value.0, key.value.1);
      PemTextIff(B("PUBLIC KEY"), KeyDispatch.SpkiOkp(KeyFormats.OID_ED25519, key.value.0), pem);
    }
  }

  lemma SshArcsIs(name: bytes)
    ensures Ssh.SshCurve(name).Some? <==> SshArcs(name).Some?
    ensures SshArcs(name).Some? ==> Ssh.SshCurve(name).value.Oid() == KeyRelation.Oid(SshArcs(name).value)
  {
    hide B, KeyRelation.Oid;
    KeyRelation.ArcsEc();
    KeyRelation.ArcsCerticom(34);
    KeyRelation.ArcsCerticom(35);
  }

  lemma EcdsaBlobIs(fields: bytes, pem: bytes)
    ensures EcdsaBlob(fields, pem) <==> Ssh.ConvertEcdsa(fields) == Ssh.Done(pem)
  {
    hide B, StringAt, IsPem, PemText, Ssh.ReadString, Ssh.SshCurve, SshArcs, Der.Tlv, KeyRelation.Oid;
    KeyRelation.ArcsEc();
    forall s, x, r
      ensures StringAt(s, x, r) <==> Ssh.ReadString(s) == Some((x, r))
    {
      StringAtIs(s, x, r);
    }
    var curve := Ssh.ReadString(fields);
    if curve.Some? && Ssh.ReadString(curve.value.1).Some? {
      var point := Ssh.ReadString(curve.value.1);
      assert StringAt(fields, curve.value.0, curve.value.1) && StringAt(curve.value.1, point.value.0, point.value.1);
      SshArcsIs(curve.value.0);
      if SshArcs(curve.value.0).Some? {
        PemTextIff(B("PUBLIC KEY"), KeyDispatch.SpkiEc(Ssh.SshCurve(curve.value.0).value, point.value.0), pem);
      }
    }
  }

  /** `ssh_to_pem` gives a text exactly for these lines, and that text. */
  lemma SshToPemIff(line: bytes, utf8: bytes -> bool, pem: bytes)
    ensures Ssh.SshToPem(line, utf8) == Ssh.Done(pem) <==> utf8(line) && Converts(line, pem)
  {
    if Ssh.SshToPem(line, utf8) == Ssh.Done(pem) {
      SshRead(line, utf8, pem);
    }
    if utf8(line) && Converts(line, pem) {
      SshConverted(line, utf8, pem);
    }
  }

  lemma SshRead(line: bytes, utf8: bytes -> bool, pem: bytes)
    requires Ssh.SshToPem(line, utf8) == Ssh.Done(pem)
    ensures utf8(line) && Converts(line, pem)
  {
    hide B, TwoWords, StringAt, RsaBlob, Ed25519Blob, EcdsaBlob, Ssh.Words, Ssh.ReadString, Ssh.ConvertRsa,
         Ssh.ConvertEd25519, Ssh.ConvertEcdsa, Encode, Decode;
    TwoWordsRead(line);
    var words := Ssh.Words(line);
    var blob := Decode(STANDARD, words[1]).value;
    DecodeIff(STANDARD, words[1], blob);
    var h := Ssh.ReadString(blob);
    StringAtIs(blob, h.value.0, h.value.1);
    RsaBlobIs(h.value.1, pem);
    Ed25519BlobIs(h.value.1, pem);
    EcdsaBlobIs(h.value.1, pem);
    assert TwoWords(line, words[0], Encode(Engine(false, true), blob)) && StringAt(blob, h.value.0, h.value.1);
  }

  lemma SshConverted(line: bytes, utf8: bytes -> bool, pem: bytes)
    requires utf8(line) && Converts(line, pem)
    ensures Ssh.SshToPem(line, utf8) == Ssh.Done(pem)
  {
    hide B, TwoWords, StringAt, RsaBlob, Ed25519Blob, EcdsaBlob, Ssh.Words, Ssh.ReadString, Ssh.ConvertRsa,
         Ssh.ConvertEd25519, Ssh.ConvertEcdsa, Encode, Decode;
    var kind, blob, header, fields :|
      TwoWords(line, kind, Encode(Engine(false, true), blob)) && StringAt(blob, header, fields) &&
      if kind == B("ssh-rsa") && header == B("ssh-rsa") then RsaBlob(fields, pem)
      else if kind == B("ssh-ed25519") && header == B("ssh-ed25519") then Ed25519Blob(fields, pem)
      else B("ecdsa-sha2-") <= kind && EcdsaBlob(fields, pem);
    TwoWordsSplit(line, kind, Encode(Engine(false, true), blob));
    RoundTrip(STANDARD, blob);
    StringAtIs(blob, header, fields);
    RsaBlobIs(fields, pem);
    Ed25519BlobIs(fields, pem);
    EcdsaBlobIs(fields, pem);
  }

  /** An RSA line whose exponent or modulus is empty. */
  ghost predicate EmptyField(line: bytes) {
    exists blob, fields, e, n, r1, r2 ::
      TwoWords(line, B("ssh-rsa"), Encode(Engine(false, true), blob)) && StringAt(blob, B("ssh-rsa"), fields) &&
      StringAt(fields, e, r1) && StringAt(r1, n, r2) && (e == [] || n == [])
  }

  /** `ssh_to_pem` panics on these lines, and on no others. */
  lemma SshPanicsIff(line: bytes, utf8: bytes -> bool)
    ensures Ssh.SshToPem(line, utf8) == Ssh.Panics <==> utf8(line) && EmptyField(line)
  {
    hide B, TwoWords, StringAt, Ssh.Words, Ssh.ReadString, Encode, Decode;
    forall s, x, r
      ensures StringAt(s, x, r) <==> Ssh.ReadString(s) == Some((x, r))
    {
      StringAtIs(s, x, r);
    }
    if Ssh.SshToPem(line, utf8) == Ssh.Panics {
      TwoWordsRead(line);
      var blob := Decode(STANDARD, Ssh.Words(line)[1]).value;
      DecodeIff(STANDARD, Ssh.Words(line)[1], blob);
      var h := Ssh.ReadString(blob).value;
      var e := Ssh.ReadString(h.1).value;
      var n := Ssh.ReadString(e.1).value;
      assert StringAt(blob, h.0, h.1) && StringAt(h.1, e.0, e.1) && StringAt(e.1, n.0, n.1);
    }
    if utf8(line) && EmptyField(line) {
      var blob, fields, e, n, r1, r2 :|
        TwoWords(line, B("ssh-rsa"), Encode(Engine(false, true), blob)) && StringAt(blob, B("ssh-rsa"), fields) &&
        StringAt(fields, e, r1) && StringAt(r1, n, r2) && (e == [] || n == []);
      TwoWordsSplit(line, B("ssh-rsa"), Encode(Engine(false, true), blob));
      RoundTrip(STANDARD, blob);
    }
  }

  // ---------- pem_to_jwk ----------

  ghost predicate Holds(s: bytes, p: bytes) {
    exists i: int :: Stands(s, p, i)
  }

  lemma HoldsIs(s: bytes, p: bytes)
    ensures Holds(s, p) <==> Contains(s, p)
  {
    if i: int :| Stands(s, p, i) {
      assert At(s, p, i);
    }
    if Contains(s, p) {
      var i :| 0 <= i <= |s| && At(s, p, i);
      assert Stands(s, p, i);
    }
  }

  /** The key of an armoured text: the labels it holds anywhere decide which parsers are tried. */
  ghost predicate ArmouredIs(s: bytes, ed25519: KeyFormats.Ed25519, jwk: Json.Value) {
    exists der ::
      Extracted(s, der) &&
      ParserRelation.Dispatched(
        Holds(s, B("BEGIN PUBLIC KEY")) || Holds(s, B("BEGIN RSA PUBLIC KEY")),
        Holds(s, B("BEGIN RSA PRIVATE KEY")) || Holds(s, B("BEGIN PRIVATE KEY")) || Holds(s, B("BEGIN EC PRIVATE KEY")),
        der, ed25519, jwk)
  }

  /** s without the white space at both ends. */
  ghost predicate Trimmed(s: bytes, t: bytes) {
    (t != [] ==> !Space(t[0]) && !Space(t[|t| - 1])) &&
    exists lead, tail :: Gap(lead) && Gap(tail) && s == lead + t + tail
  }

  lemma {:induction false} TrimStartIs(s: bytes) returns (lead: bytes)
    ensures Gap(lead) && s == lead + TrimStart(s) && (TrimStart(s) != [] ==> !Space(TrimStart(s)[0]))
  {
    if s != [] && IsSpace(s[0]) {
      lead := TrimStartIs(s[1..]);
      lead := [s[0]] + lead;
    } else {
      lead := [];
    }
  }

  lemma {:induction false} TrimEndIs(s: bytes) returns (tail: bytes)
    ensures Gap(tail) && s == TrimEnd(s) + tail && (TrimEnd(s) != [] ==> !Space(TrimEnd(s)[|TrimEnd(s)| - 1]))
  {
    if s != [] && IsSpace(s[|s| - 1]) {
      tail := TrimEndIs(s[..|s| - 1]);
      tail := tail + [s[|s| - 1]];
    } else {
      tail := [];
    }
  }

  lemma TrimIs(s: bytes)
    ensures Trimmed(s, Trim(s))
  {
    var lead := TrimStartIs(s);
    var tail := TrimEndIs(TrimStart(s));
    assert s == lead + Trim(s) + tail;
    assert Trim(s) != [] ==> Trim(s)[0] == TrimStart(s)[0];
  }

  lemma TrimOnly(s: bytes, t: bytes)
    requires Trimmed(s, t)
    ensures t == Trim(s)
  {
    var lead, tail :| Gap(lead) && Gap(tail) && s == lead + t + tail;
    assert lead + t + tail == lead + (t + tail);
    DropLead(lead, t + tail);
    if t == [] {
      assert t + tail == tail;
      AllGone(tail);
    } else {
      StartKept(t + tail);
      DropTail(t, tail);
    }
  }

  lemma {:induction false} DropLead(lead: bytes, rest: bytes)
    requires Gap(lead)
    ensures TrimStart(lead + rest) == TrimStart(rest)
  {
    if lead == [] {
      assert lead + rest == rest;
    } else {
      assert lead[0] in lead;
      assert (lead + rest)[1..] == lead[1..] + rest;
      DropLead(lead[1..], rest);
    }
  }

  lemma StartKept(s: bytes)
    requires s != [] && !Space(s[0])
    ensures TrimStart(s) == s
  {
  }

  lemma {:induction false} DropTail(t: bytes, tail: bytes)
    requires Gap(tail) && t != [] && !Space(t[|t| - 1])
    ensures TrimEnd(t + tail) == t
  {
    if tail == [] {
      assert t + tail == t;
    } else {
      var n := |tail| - 1;
      assert tail[n] in tail;
      assert (t + tail)[..|t| + n] == t + tail[..n];
      DropTail(t, tail[..n]);
    }
  }

  lemma {:induction false} AllGone(g: bytes)
    requires Gap(g)
    ensures TrimStart(g) == []
  {
    if g != [] {
      assert g[0] in g;
      AllGone(g[1..]);
    }
  }

  predicate SshStart(t: bytes) {
    B("ssh-") <= t || B("ecdsa-") <= t
  }

  /** UTF-8 text; an SSH key line is converted first, and what it is converted to is read as any armoured text. */
  ghost predicate KeyIs(s: bytes, utf8: bytes -> bool, ed25519: KeyFormats.Ed25519, jwk: Json.Value) {
    utf8(s) && exists t ::
      Trimmed(s, t) &&
      if SshStart(t) then exists pem :: utf8(t) && Converts(t, pem) && utf8(pem) && ArmouredIs(pem, ed25519, jwk)
      else ArmouredIs(s, ed25519, jwk)
  }

  lemma ArmouredIff(s: bytes, ed25519: KeyFormats.Ed25519, jwk: Json.Value)
    ensures PemKeys.ArmouredToJwk(s, ed25519) == Ssh.Done(jwk) <==> ArmouredIs(s, ed25519, jwk)
  {
    hide B, Extracted, PemDer, Holds, Contains, KeyFormats.Dispatch, ParserRelation.Dispatched;
    HoldsIs(s, B("BEGIN PUBLIC KEY"));
    HoldsIs(s, B("BEGIN RSA PUBLIC KEY"));
    HoldsIs(s, B("BEGIN RSA PRIVATE KEY"));
    HoldsIs(s, B("BEGIN PRIVATE KEY"));
    HoldsIs(s, B("BEGIN EC PRIVATE KEY"));
    forall der
      ensures PemDer(s) == Ok(der) <==> Extracted(s, der)
    {
      PemDerIff(s, der);
    }
    if PemDer(s).Ok? {
      ParserRelation.DispatchIff(PemKeys.PublicLabel(s), PemKeys.PrivateLabel(s), PemDer(s).value, ed25519, jwk);
    }
  }

  /** `pem_to_jwk` gives a key exactly for these texts, and that key. */
  lemma PemToJwkIff(s: bytes, utf8: bytes -> bool, ed25519: KeyFormats.Ed25519, jwk: Json.Value)
    ensures PemKeys.PemToJwk(s, utf8, ed25519) == Ssh.Done(jwk) <==> KeyIs(s, utf8, ed25519, jwk)
  {
    hide B, ArmouredIs, PemKeys.ArmouredToJwk, Ssh.SshToPem, Converts, Trimmed, Trim;
    var t := Trim(s);
    TrimIs(s);
    forall u | Trimmed(s, u)
      ensures u == t
    {
      TrimOnly(s, u);
    }
    ArmouredIff(s, ed25519, jwk);
    if PemKeys.SshLine(t) {
      forall pem
        ensures Ssh.SshToPem(t, utf8) == Ssh.Done(pem) <==> utf8(t) && Converts(t, pem)
        ensures PemKeys.ArmouredToJwk(pem, ed25519) == Ssh.Done(jwk) <==> ArmouredIs(pem, ed25519, jwk)
      {
        SshToPemIff(t, utf8, pem);
        ArmouredIff(pem, ed25519, jwk);
      }
      PemKeys.ConvertedIsArmoured(t, utf8);
    }
  }

  /** And it panics exactly on these key lines. */
  lemma PemToJwkPanicsIff(s: bytes, utf8: bytes -> bool, ed25519: KeyFormats.Ed25519)
    ensures PemKeys.PemToJwk(s, utf8, ed25519) == Ssh.Panics
       <==> utf8(s) && exists t :: Trimmed(s, t) && SshStart(t) && utf8(t) && EmptyField(t)
  {
    hide B, PemDer, PemKeys.FromDispatch, KeyFormats.Dispatch, Ssh.SshToPem, EmptyField, Trimmed, Trim;
    var t := Trim(s);
    TrimIs(s);
    forall u | Trimmed(s, u)
      ensures u == t
    {
      TrimOnly(s, u);
    }
    SshPanicsIff(t, utf8);
    forall a
      ensures PemKeys.ArmouredToJwk(a, ed25519) != Ssh.Panics
    {
      ArmouredEnds(a, ed25519);
    }
    if PemKeys.SshLine(t) {
      PemKeys.ConvertedIsArmoured(t, utf8);
    }
  }

  lemma ArmouredEnds(s: bytes, ed25519: KeyFormats.Ed25519)
    ensures PemKeys.ArmouredToJwk(s, ed25519) != Ssh.Panics
  {
    hide PemDer, KeyFormats.Dispatch;
  }
}
