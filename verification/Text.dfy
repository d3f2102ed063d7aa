/** Dot-separated texts: `str::split('.')` and its inverse. */
module Text {
  import opened Bytes
  import Base64

  const DOT: byte := 46

  predicate NoDot(s: bytes) {
    forall i :: 0 <= i < |s| ==> s[i] != DOT
  }

  /** The position of the first dot, or the length if there is none. */
  function FirstDot(s: bytes): (i: nat)
    ensures i <= |s| && NoDot(s[..i]) && (i < |s| ==> s[i] == DOT)
  {
    if s == [] || s[0] == DOT then 0
    else
      assert forall k :: 0 <= k < 1 + FirstDot(s[1..]) ==> s[k] == if k == 0 then s[0] else s[1..][k - 1];
      1 + FirstDot(s[1..])
  }

  function SplitDots(s: bytes): (parts: seq<bytes>)
    ensures |parts| >= 1
    ensures forall i :: 0 <= i < |parts| ==> NoDot(parts[i])
  {
    var i := FirstDot(s);
    if i == |s| then [s] else [s[..i]] + SplitDots(s[i + 1..])
  }

  function JoinDots(parts: seq<bytes>): bytes
    requires |parts| >= 1
  {
    if |parts| == 1 then parts[0] else parts[0] + [DOT] + JoinDots(parts[1..])
  }

  lemma DotAtMost(s: bytes, k: nat)
    requires k < |s| && s[k] == DOT
    ensures FirstDot(s) <= k
  {
    var prefix := s[..FirstDot(s)];
    assert forall i :: 0 <= i < |prefix| ==> prefix[i] == s[i];
  }

  lemma FirstDotIs(a: bytes, rest: bytes)
    requires NoDot(a)
    ensures FirstDot(a + [DOT] + rest) == |a| && FirstDot(a) == |a|
  {
    var s := a + [DOT] + rest;
    assert s[|a|] == DOT;
    DotAtMost(s, |a|);
    assert forall k :: 0 <= k < |a| ==> s[k] == a[k];
  }

  lemma SplitDotsCons(a: bytes, rest: bytes)
    requires NoDot(a)
    ensures SplitDots(a + [DOT] + rest) == [a] + SplitDots(rest)
    ensures SplitDots(a) == [a]
  {
    FirstDotIs(a, rest);
    var s := a + [DOT] + rest;
    assert s[..|a|] == a && s[|a| + 1..] == rest;
    assert a[..|a|] == a;
  }

  /** Splitting loses nothing. */
  lemma {:induction false} SplitDotsJoin(s: bytes)
    ensures JoinDots(SplitDots(s)) == s
    decreases |s|
  {
    hide FirstDot, NoDot;
    var i := FirstDot(s);
    if i < |s| {
      SplitDotsJoin(s[i + 1..]);
      var tail := SplitDots(s[i + 1..]);
      assert ([s[..i]] + tail)[1..] == tail;
      assert s == s[..i] + [DOT] + s[i + 1..];
    }
  }

  /** Joining dot-free parts loses nothing. */
  lemma {:induction false} SplitOfJoin(parts: seq<bytes>)
    requires |parts| >= 1 && forall i :: 0 <= i < |parts| ==> NoDot(parts[i])
    ensures SplitDots(JoinDots(parts)) == parts
  {
    hide NoDot, SplitDots;
    if |parts| == 1 {
      SplitDotsCons(parts[0], []);
    } else {
      SplitOfJoin(parts[1..]);
      SplitDotsCons(parts[0], JoinDots(parts[1..]));
      assert parts == [parts[0]] + parts[1..];
    }
  }

  lemma FiveParts(a: bytes, b: bytes, c: bytes, d: bytes, e: bytes)
    ensures JoinDots([a, b, c, d, e]) == a + [DOT] + b + [DOT] + c + [DOT] + d + [DOT] + e
  {
    assert [a, b, c, d, e][1..] == [b, c, d, e] && [b, c, d, e][1..] == [c, d, e] && [c, d, e][1..] == [d, e] &&
           [d, e][1..] == [e];
    assert JoinDots([d, e]) == d + [DOT] + e;
    assert JoinDots([c, d, e]) == c + [DOT] + (d + [DOT] + e);
    assert JoinDots([b, c, d, e]) == b + [DOT] + (c + [DOT] + (d + [DOT] + e));
  }

  lemma EncodedNoDot(b: bytes)
    ensures NoDot(Base64.Encode(Base64.URL_SAFE_NO_PAD, b))
  {
    Base64.EncodeIsClean(Base64.URL_SAFE_NO_PAD, b);
    forall i | 0 <= i < |Base64.Encode(Base64.URL_SAFE_NO_PAD, b)|
      ensures Base64.Encode(Base64.URL_SAFE_NO_PAD, b)[i] != DOT
    {
      assert Base64.Encode(Base64.URL_SAFE_NO_PAD, b)[i] in Base64.Encode(Base64.URL_SAFE_NO_PAD, b);
    }
  }
}
