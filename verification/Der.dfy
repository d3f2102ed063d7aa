/**
 The bytes the DER encoder of src/crypto_parsing.rs emits and what its reader makes of them: the
 functions the methods of module DerCode are proved against, and the lemmas relating the two sides.
 */
module Der {
  import opened Bytes

  // ---------- what the encoder emits ----------

  const USIZE := 0x1_0000_0000_0000_0000

  /** Definite lengths, with the two-byte form truncated to sixteen bits. */
  function DerLen(len: nat): bytes {
    if len < 128 then [len]
    else if len < 256 then [0x81, len]
    else [0x82, len / 256 % 256, len % 256]
  }

  function Tlv(tag: byte, content: bytes): bytes {
    [tag] + DerLen(|content|) + content
  }

  /** The contents octets of a non-negative INTEGER: shortest digits, kept positive by a zero octet. */
  function IntContent(n: nat): bytes {
    var digits := ToBE(n);
    if digits[0] >= 0x80 then [0] + digits else digits
  }

  function IntTlv(n: nat): bytes {
    Tlv(0x02, IntContent(n))
  }

  /** `(len as u16).to_be_bytes()` */
  lemma SixteenBits(len: nat)
    ensures FixedBE(len % 0x1_0000, 2) == [len / 256 % 256, len % 256]
  {
    var low := len % 0x1_0000;
    SplitSixteen(len);
    assert FixedBE(low / 256, 1) == FixedBE(low / 256 / 256, 0) + [low / 256 % 256];
  }

  /** One step of the long-length loop on a 64-bit accumulator. */
  lemma LengthStep(b: bytes, i: nat)
    requires i < |b|
    ensures FromBE(b[..i + 1]) % USIZE == ((FromBE(b[..i]) % USIZE) * 256 + b[i]) % USIZE
  {
    assert b[..i + 1][..i] == b[..i];
    var x := FromBE(b[..i]);
    var q, r := x / USIZE, x % USIZE;
    ModUnique(r * 256 + b[i] + USIZE * (256 * q), USIZE, 256 * q + (r * 256 + b[i]) / USIZE, (r * 256 + b[i]) % USIZE);
  }

  lemma TrimmedIsMinimal(slice: bytes)
    requires slice != [] && (|slice| == 1 || slice[0] != 0 || slice[1] >= 0x80)
    ensures IntContent(FromBE(slice)) == if slice[0] >= 0x80 then [0] + slice else slice
  {
    if |slice| > 1 && slice[0] == 0 {
      assert slice == [0] + slice[1..];
      FromBELeadingZero(slice[1..]);
      ShortestDigits(slice[1..]);
    } else {
      ShortestDigits(slice);
    }
  }

  // ---------- DER integers are canonical (X.690, section 8.3) ----------

  /** The integer denoted by contents octets in two's complement. */
  function TwosComplement(c: bytes): int
    requires c != []
  {
    if c[0] >= 0x80 then FromBE(c) - Exp256(|c|) else FromBE(c)
  }

  /** Section 8.3.2: the first nine bits are neither all zero nor all one. */
  predicate Minimal(c: bytes) {
    |c| > 1 ==> !(c[0] == 0 && c[1] < 0x80) && !(c[0] == 0xFF && c[1] >= 0x80)
  }

  /** `encode_der_int` emits the one minimal encoding of its value. */
  lemma IntContentCanonical(n: nat, c: bytes)
    requires c != []
    ensures Minimal(c) && TwosComplement(c) == n <==> c == IntContent(n)
  {
    FromToBE(n);
    ToBELeading(n);
    var digits := ToBE(n);
    if c == IntContent(n) {
      FromBELeadingZero(digits);
    }
    if Minimal(c) && TwosComplement(c) == n {
      FromBEBound(c);
      TrimmedIsMinimal(c);
    }
  }

  // ---------- what the reader does ----------

  datatype DerError = Eof | EofLength | EofLongLength | TooShort | WrongTag(expected: byte) | EmptyBitString

  /** The outcome of a read together with the input left over, which is defined on failure too. */
  datatype Read<+T> = Read(result: Result<T, DerError>, rest: bytes)

  function Take(tag: byte, len: nat, body: bytes): Read<(byte, bytes)> {
    if |body| < len then Read(Err(TooShort), body) else Read(Ok((tag, body[..len])), body[len..])
  }

  function ReadTag(input: bytes): Read<(byte, bytes)> {
    if input == [] then Read(Err(Eof), input)
    else if |input| == 1 then Read(Err(EofLength), [])
    else
      var first, body := input[1], input[2..];
      if first < 0x80 then Take(input[0], first, body)
      else if |body| < first - 0x80 then Read(Err(EofLongLength), body)
      else Take(input[0], FromBE(body[..first - 0x80]) % USIZE, body[first - 0x80..])
  }

  /** Reading a value of a fixed tag. */
  function ReadTagged(tag: byte, input: bytes): Read<bytes> {
    var r := ReadTag(input);
    Read(if r.result.Err? then Err(r.result.error)
         else if r.result.value.0 != tag then Err(WrongTag(tag))
         else Ok(r.result.value.1), r.rest)
  }

  function ReadSequence(input: bytes): Read<bytes> {
    ReadTagged(0x30, input)
  }

  function ReadOctets(input: bytes): Read<bytes> {
    ReadTagged(0x04, input)
  }

  function ReadOid(input: bytes): Read<bytes> {
    ReadTagged(0x06, input)
  }

  function ReadBits(input: bytes): Read<bytes> {
    var r := ReadTagged(0x03, input);
    Read(if r.result.Err? then r.result
         else if r.result.value == [] then Err(EmptyBitString)
         else Ok(r.result.value[1..]), r.rest)
  }

  /** The contents without leading zero octets, keeping one octet. */
  function Strip(s: bytes): bytes {
    if |s| > 1 && s[0] == 0 then Strip(s[1..]) else s
  }

  function ReadInteger(input: bytes): Read<bytes> {
    var r := ReadTagged(0x02, input);
    Read(if r.result.Err? then r.result else Ok(Strip(r.result.value)), r.rest)
  }

  function ReadOptional(mark: byte, input: bytes): Read<Option<bytes>> {
    if input != [] && input[0] == mark then
      var r := ReadTag(input);
      Read(if r.result.Err? then Err(r.result.error) else Ok(Some(r.result.value.1)), r.rest)
    else Read(Ok(None), input)
  }

  function ReadTlv(input: bytes): Read<bytes> {
    var r := ReadTag(input);
    Read(if r.result.Err? || |r.rest| > |input| then (if r.result.Err? then Err(r.result.error) else Err(Eof))
         else Ok(input[..|input| - |r.rest|]), r.rest)
  }

  // ---------- elements (X.690, sections 8.1.2 and 8.1.3) ----------

  /** Length octets for n, in the short or any long form; 64 bits of a long form count, and 0x80 stands for zero. */
  predicate Denotes(o: bytes, n: nat) {
    o != [] && if o[0] < 0x80 then |o| == 1 && n == o[0] else |o| == o[0] - 0x7f && n == FromBE(o[1..]) % USIZE
  }

  /** The input is a tag, length octets, as many content octets, and a rest. */
  ghost predicate Element(tag: byte, content: bytes, input: bytes, rest: bytes) {
    exists o :: Denotes(o, |content|) && input == [tag] + o + content + rest
  }

  lemma TakeIff(tag: byte, len: nat, body: bytes, t: byte, content: bytes, rest: bytes)
    ensures Take(tag, len, body) == Read(Ok((t, content)), rest) <==>
            t == tag && len == |content| && body == content + rest
  {
  }

  /** Reading an input whose length octets o are complete. */
  lemma ReadsHeader(tag: byte, o: bytes, n: nat, body: bytes)
    requires Denotes(o, n)
    ensures ReadTag([tag] + o + body) == Take(tag, n, body)
  {
    hide FromBE, Take;
    var input, k := [tag] + o + body, |o|;
    assert input[0] == tag && input[1] == o[0] && input[2..] == o[1..] + body;
    assert (o[1..] + body)[..k - 1] == o[1..] && (o[1..] + body)[k - 1..] == body;
  }

  /** The length octets of an input that is read. */
  lemma HeaderRead(input: bytes) returns (o: bytes, n: nat, body: bytes)
    requires ReadTag(input).result.Ok?
    ensures Denotes(o, n) && input == [input[0]] + o + body
  {
    hide FromBE, Take;
    var k := if input[1] < 0x80 then 1 else input[1] - 0x7f;
    o, body := input[1..1 + k], input[1 + k..];
    n := if input[1] < 0x80 then input[1] else FromBE(o[1..]) % USIZE;
  }

  /** Reading succeeds exactly on the inputs that start with an element, of whatever length form. */
  lemma ReadTagIff(tag: byte, content: bytes, input: bytes, rest: bytes)
    ensures ReadTag(input) == Read(Ok((tag, content)), rest) <==> Element(tag, content, input, rest)
  {
    hide ReadTag, Take, Denotes;
    if ReadTag(input) == Read(Ok((tag, content)), rest) {
      var o, n, body := HeaderRead(input);
      ReadsHeader(input[0], o, n, body);
      TakeIff(input[0], n, body, tag, content, rest);
      ContentLast(tag, o, content, rest);
    }
    if o :| Denotes(o, |content|) && input == [tag] + o + content + rest {
      ContentLast(tag, o, content, rest);
      ReadsHeader(tag, o, |content|, content + rest);
      TakeIff(tag, |content|, content + rest, tag, content, rest);
    }
  }

  lemma ContentLast(tag: byte, o: bytes, content: bytes, rest: bytes)
    ensures [tag] + o + content + rest == [tag] + o + (content + rest)
  {
  }

  lemma ReadTaggedIff(tag: byte, content: bytes, input: bytes, rest: bytes)
    ensures ReadTagged(tag, input) == Read(Ok(content), rest) <==> Element(tag, content, input, rest)
  {
    hide ReadTag, Element;
    ReadTagIff(tag, content, input, rest);
  }

  /** What the encoder emits: a tag, the shortest length octets of the length modulo 65536 from 256 on, the content. */
  lemma TlvIs(tag: byte, content: bytes) returns (o: bytes)
    ensures Tlv(tag, content) == [tag] + o + content
    ensures Denotes(o, if |content| < 256 then |content| else |content| % 0x1_0000)
    ensures |o| == if |content| < 128 then 1 else if |content| < 256 then 2 else 3
  {
    hide FromBE;
    o := DerLen(|content|);
    if 128 <= |content| < 256 {
      TwoByteValue(|content|, 0);
      assert o[1..] == [|content|];
    } else if |content| >= 256 {
      TwoByteValue(|content| / 256 % 256, |content| % 256);
      SplitSixteen(|content|);
      assert o[1..] == [|content| / 256 % 256, |content| % 256];
    }
  }

  // ---------- confinement and progress ----------

  predicate Suffix(rest: bytes, input: bytes) {
    |rest| <= |input| && rest == input[|input| - |rest|..]
  }

  /**
   Every read leaves a suffix of its input, and a strictly shorter one whenever the input is not
   empty, even when it fails; a successful read splits the input into header, content and rest.
   */
  lemma ReadConfined(input: bytes)
    ensures var r := ReadTag(input);
            Suffix(r.rest, input) && (input != [] ==> |r.rest| < |input|) &&
            (r.result.Ok? ==> var used := |input| - |r.rest| - |r.result.value.1|;
              used >= 2 && input == input[..used] + r.result.value.1 + r.rest && input[0] == r.result.value.0)
  {
    hide FromBE, Take;
    if |input| >= 2 {
      var first, body := input[1], input[2..];
      if first >= 0x80 && |body| >= first - 0x80 {
        TakeConfined(input, 2 + (first - 0x80), input[0], FromBE(body[..first - 0x80]) % USIZE);
        assert body[first - 0x80..] == input[2 + (first - 0x80)..];
      } else if first < 0x80 {
        TakeConfined(input, 2, input[0], first);
      }
    }
  }

  lemma TakeConfined(input: bytes, used: nat, tag: byte, len: nat)
    requires used <= |input|
    ensures var r := Take(tag, len, input[used..]);
            Suffix(r.rest, input) &&
            |r.rest| <= |input| - used &&
            (r.result.Ok? ==> r.result.value.0 == tag && |r.result.value.1| == len &&
                              used == |input| - |r.rest| - len && input == input[..used] + r.result.value.1 + r.rest)
  {
  }

  lemma TaggedConfined(tag: byte, input: bytes)
    ensures var r := ReadTagged(tag, input);
            |r.rest| <= |input| && (input != [] ==> |r.rest| < |input|) &&
            (r.result.Ok? ==> |r.result.value| + |r.rest| + 2 <= |input|)
  {
  }

  lemma SequenceConfined(input: bytes)
    ensures var r := ReadSequence(input); |r.rest| <= |input| && (input != [] ==> |r.rest| < |input|)
  {
  }

  /** `read_tlv` returns exactly the consumed prefix, so successive results concatenate to the input. */
  lemma TlvIsConsumed(input: bytes)
    ensures var r := ReadTlv(input);
            r.result.Ok? ==> r.result.value + r.rest == input && |r.result.value| >= 2
    ensures ReadTlv(input).result.Ok? <==> ReadTag(input).result.Ok?
  {
  }

  /** All values read one after the other, up to the first failure. */
  function TlvSequence(input: bytes): (seq<bytes>, bytes)
    decreases |input|
  {
    TlvIsConsumed(input);
    var r := ReadTlv(input);
    if r.result.Err? then ([], input)
    else (([r.result.value] + TlvSequence(r.rest).0), TlvSequence(r.rest).1)
  }

  function Concat(parts: seq<bytes>): bytes {
    if parts == [] then [] else parts[0] + Concat(parts[1..])
  }

  lemma {:induction false} TlvSequenceConcatenates(input: bytes)
    ensures Concat(TlvSequence(input).0) + TlvSequence(input).1 == input
    decreases |input|
  {
    TlvIsConsumed(input);
    var r := ReadTlv(input);
    if r.result.Ok? {
      TlvSequenceConcatenates(r.rest);
      var tail := TlvSequence(r.rest);
      assert ([r.result.value] + tail.0)[1..] == tail.0;
      assert r.result.value + Concat(tail.0) + tail.1 == r.result.value + (Concat(tail.0) + tail.1);
    }
  }

  // ---------- the reader inverts the encoder, up to 65535 content bytes ----------

  lemma ReadsBack(tag: byte, content: bytes, rest: bytes)
    requires |content| < 0x1_0000
    ensures ReadTag(Tlv(tag, content) + rest) == Read(Ok((tag, content)), rest)
  {
    HeaderReads(tag, content, rest);
    assert (content + rest)[..|content|] == content && (content + rest)[|content|..] == rest;
  }

  lemma TwoByteValue(hi: byte, lo: byte)
    ensures FromBE([hi, lo]) == hi * 256 + lo && FromBE([hi]) == hi
  {
    assert [hi, lo][..1] == [hi] && [hi][..0] == [];
    assert FromBE([hi]) == FromBE([]) * 256 + hi;
  }

  /** Reading a header whose length octets are a first octet and possibly some more. */
  lemma LongHeaderReads(tag: byte, octets: bytes, body: bytes)
    requires 0 < |octets| < 3
    ensures ReadTag([tag, 0x80 + |octets|] + octets + body) == Take(tag, FromBE(octets) % USIZE, body)
  {
    hide FromBE, Take, ReadTag;
    var o := [0x80 + |octets| as byte] + octets;
    assert o[1..] == octets;
    ReadsHeader(tag, o, FromBE(octets) % USIZE, body);
    assert [tag] + o == [tag, 0x80 + |octets|] + octets;
  }

  /** Reading the emitted header takes the emitted length, which is reduced modulo 65536 from 256 on. */
  lemma HeaderReads(tag: byte, content: bytes, rest: bytes)
    ensures ReadTag(Tlv(tag, content) + rest)
         == Take(tag, if |content| < 256 then |content| else |content| % 0x1_0000, content + rest)
  {
    hide ReadTag, Tlv, Take;
    if |content| < 128 {
      ShortLength(tag, content, rest);
    } else if |content| < 256 {
      OneByteLength(tag, content, rest);
    } else {
      TwoByteLength(tag, content, rest);
    }
  }

  lemma ShortLength(tag: byte, content: bytes, rest: bytes)
    requires |content| < 128
    ensures ReadTag(Tlv(tag, content) + rest) == Take(tag, |content|, content + rest)
  {
    hide FromBE, Take;
    assert (Tlv(tag, content) + rest)[2..] == content + rest;
  }

  lemma OneByteLength(tag: byte, content: bytes, rest: bytes)
    requires 128 <= |content| < 256
    ensures ReadTag(Tlv(tag, content) + rest) == Take(tag, |content|, content + rest)
  {
    hide FromBE, Take, ReadTag;
    var len: byte := |content|;
    assert Tlv(tag, content) + rest == [tag, 0x81] + [len] + (content + rest);
    TwoByteValue(len, 0);
    LongHeaderReads(tag, [len], content + rest);
  }

  lemma TwoByteLength(tag: byte, content: bytes, rest: bytes)
    requires |content| >= 256
    ensures ReadTag(Tlv(tag, content) + rest) == Take(tag, |content| % 0x1_0000, content + rest)
  {
    hide FromBE, Take, ReadTag;
    var len := |content|;
    var hi: byte, lo: byte := len / 256 % 256, len % 256;
    assert Tlv(tag, content) + rest == [tag, 0x82] + [hi, lo] + (content + rest);
    TwoByteValue(hi, lo);
    SplitSixteen(len);
    LongHeaderReads(tag, [hi, lo], content + rest);
  }

  lemma SplitSixteen(len: nat)
    ensures len % 0x1_0000 == len / 256 % 256 * 256 + len % 256
  {
    var q, h, l := len / 0x1_0000, len / 256 % 256, len % 256;
    assert len == 0x1_0000 * q + 256 * h + l;
  }

  /** The exact limit: an element is read back if and only if its content is shorter than 65536 bytes. */
  lemma ReadsBackIff(tag: byte, content: bytes, rest: bytes)
    ensures ReadTag(Tlv(tag, content) + rest) == Read(Ok((tag, content)), rest) <==> |content| < 0x1_0000
  {
    if |content| < 0x1_0000 {
      ReadsBack(tag, content, rest);
    } else {
      HeaderReads(tag, content, rest);
      assert |content| % 0x1_0000 < |content|;
    }
  }

  /** `read_integer_bytes` yields the shortest digits of the contents' value. */
  lemma {:induction false} StripIsShortest(s: bytes)
    requires s != []
    ensures Strip(s) == ToBE(FromBE(s))
    decreases |s|
  {
    if |s| > 1 && s[0] == 0 {
      StripIsShortest(s[1..]);
      assert s == [0] + s[1..];
      FromBELeadingZero(s[1..]);
    } else {
      ShortestDigits(s);
    }
  }

  lemma IntegerReadsBack(n: nat, rest: bytes)
    requires |IntContent(n)| < 0x1_0000
    ensures ReadInteger(IntTlv(n) + rest) == Read(Ok(ToBE(n)), rest)
  {
    ReadsBack(0x02, IntContent(n), rest);
    StripIsShortest(IntContent(n));
    FromToBE(n);
    FromBELeadingZero(ToBE(n));
  }

  lemma TaggedReadsBack(tag: byte, content: bytes, rest: bytes)
    requires |content| < 0x1_0000
    ensures ReadTagged(tag, Tlv(tag, content) + rest) == Read(Ok(content), rest)
  {
    ReadsBack(tag, content, rest);
  }
}
