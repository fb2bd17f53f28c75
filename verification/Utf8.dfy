/** Well-formed UTF-8, and the longest well-formed prefix within a byte limit. */
module Utf8 {
  import opened Types

  predicate IsContinuation(b: byte) {
    0x80 <= b < 0xC0
  }

  predicate RuneStart(b: byte) {
    !IsContinuation(b)
  }

  /** The length of the encoded code point at the front of the text, or 0 if there is none (table 3-7 of the
      Unicode Standard). */
  function RuneLength(s: Text): (n: nat)
    ensures n <= |s|
    ensures n > 0 ==> RuneStart(s[0]) && forall i :: 1 <= i < n ==> IsContinuation(s[i])
  {
    if s == [] then 0
    else if s[0] < 0x80 then 1
    else if 0xC2 <= s[0] <= 0xDF then
      if |s| >= 2 && IsContinuation(s[1]) then 2 else 0
    else if 0xE0 <= s[0] <= 0xEF then
      if |s| >= 3 && IsContinuation(s[1]) && IsContinuation(s[2])
         && (s[0] == 0xE0 ==> s[1] >= 0xA0) && (s[0] == 0xED ==> s[1] < 0xA0) then 3 else 0
    else if 0xF0 <= s[0] <= 0xF4 then
      if |s| >= 4 && IsContinuation(s[1]) && IsContinuation(s[2]) && IsContinuation(s[3])
         && (s[0] == 0xF0 ==> s[1] >= 0x90) && (s[0] == 0xF4 ==> s[1] < 0x90) then 4 else 0
    else 0
  }

  predicate ValidUtf8(s: Text) {
    s == [] || (RuneLength(s) > 0 && ValidUtf8(s[RuneLength(s)..]))
  }

  /** The first code point depends only on its own bytes. */
  lemma RuneLengthOfPrefix(s: Text, e: nat)
    requires RuneLength(s) <= e <= |s|
    ensures RuneLength(s) > 0 ==> RuneLength(s[..e]) == RuneLength(s)
  {
  }

  lemma RuneLengthOfExtension(s: Text, e: nat)
    requires e <= |s| && RuneLength(s[..e]) > 0
    ensures RuneLength(s) == RuneLength(s[..e])
  {
  }

  lemma {:induction false} ValidConcat(a: Text, b: Text)
    requires ValidUtf8(a) && ValidUtf8(b)
    ensures ValidUtf8(a + b)
    decreases |a|
  {
    hide RuneLength;
    if a == [] {
      assert a + b == b;
    } else {
      var n := RuneLength(a);
      assert (a + b)[..|a|] == a;
      RuneLengthOfExtension(a + b, |a|);
      ValidConcat(a[n..], b);
      assert (a + b)[n..] == a[n..] + b;
    }
  }

  /** Cutting well-formed text where a code point may start leaves both sides well-formed. */
  lemma {:induction false} CutAtRuneStart(s: Text, e: nat)
    requires ValidUtf8(s) && e <= |s|
    requires e == |s| || RuneStart(s[e])
    ensures ValidUtf8(s[..e]) && ValidUtf8(s[e..])
    decreases |s|
  {
    hide RuneLength;
    if e == 0 || e == |s| {
      assert s[..|s|] == s && s[0..] == s;
    } else {
      var n := RuneLength(s);
      CutAtRuneStart(s[n..], e - n);
      RuneLengthOfPrefix(s, e);
      assert s[..e][n..] == s[n..][..e - n];
      assert s[n..][e - n..] == s[e..];
    }
  }

  /** Cutting it anywhere else does not. */
  lemma {:induction false} ValidCutIsRuneStart(s: Text, e: nat)
    requires ValidUtf8(s) && e < |s| && ValidUtf8(s[..e])
    ensures RuneStart(s[e])
    decreases |s|
  {
    hide RuneLength;
    if e > 0 {
      var n := RuneLength(s[..e]);
      RuneLengthOfExtension(s, e);
      assert s[..e][n..] == s[n..][..e - n];
      ValidCutIsRuneStart(s[n..], e - n);
    }
  }

  function RuneCut(value: Text, end: nat): (e: nat)
    requires end < |value|
    ensures e <= end
  {
    if end > 0 && !RuneStart(value[end]) then RuneCut(value, end - 1) else end
  }

  /** The loop that shortens text to a limit without splitting a code point. */
  method ValidUtf8Prefix(value: Text, limit: int) returns (prefix: Text)
    ensures prefix == Shortened(value, limit)
  {
    if limit <= 0 {
      return [];
    }
    if |value| <= limit {
      return value;
    }
    var end := limit;
    while end > 0 && !RuneStart(value[end])
      invariant 0 <= end <= limit
      invariant RuneCut(value, end) == RuneCut(value, limit)
    {
      end := end - 1;
    }
    return value[..end];
  }

  function Shortened(value: Text, limit: int): (prefix: Text)
    ensures prefix <= value && |prefix| <= Max(limit, 0)
  {
    if limit <= 0 then []
    else if |value| <= limit then value
    else value[..RuneCut(value, limit)]
  }

  /** Of well-formed text, the shortened form is the longest well-formed prefix within the limit. */
  lemma ShortenedIsLongest(value: Text, limit: int, other: Text)
    requires ValidUtf8(value)
    ensures ValidUtf8(Shortened(value, limit))
    ensures ValidUtf8(other) && other <= value && |other| <= limit ==> |other| <= |Shortened(value, limit)|
  {
    if 0 < limit < |value| {
      RuneCutStops(value, limit);
      CutAtRuneStart(value, RuneCut(value, limit));
      if ValidUtf8(other) && other <= value && |other| <= limit {
        assert other == value[..|other|];
        ValidCutIsRuneStart(value, |other|);
      }
    }
  }

  lemma {:induction false} RuneCutStops(value: Text, end: nat)
    requires ValidUtf8(value) && end < |value|
    ensures RuneStart(value[RuneCut(value, end)])
    ensures forall i :: RuneCut(value, end) < i <= end ==> !RuneStart(value[i])
  {
    if end > 0 && !RuneStart(value[end]) {
      RuneCutStops(value, end - 1);
    }
  }

  /** A Unicode scalar value: a code point that is no surrogate. */
  predicate IsScalar(c: int) {
    0 <= c < 0xD800 || 0xE000 <= c < 0x11_0000
  }

  function Trailing(c: nat): byte {
    0x80 + c % 64
  }

  /** The encoding of a scalar value in UTF-8 (section 3 of RFC 3629): the shortest of the four forms. */
  function Encode(c: nat): (s: Text)
    requires IsScalar(c)
    ensures 1 <= |s| <= 4
  {
    if c < 0x80 then [c]
    else if c < 0x800 then [0xC0 + c / 64, Trailing(c)]
    else if c < 0x1_0000 then [0xE0 + c / 4096, Trailing(c / 64), Trailing(c)]
    else [0xF0 + c / 262_144, Trailing(c / 4096), Trailing(c / 64), Trailing(c)]
  }

  predicate AllScalars(cs: seq<nat>) {
    forall i :: 0 <= i < |cs| ==> IsScalar(cs[i])
  }

  function EncodeAll(cs: seq<nat>): Text
    requires AllScalars(cs)
  {
    if cs == [] then [] else Encode(cs[0]) + EncodeAll(cs[1..])
  }

  /** An encoded scalar value is recognised, whatever follows it. */
  lemma EncodedIsRune(c: nat, rest: Text)
    requires IsScalar(c)
    ensures RuneLength(Encode(c) + rest) == |Encode(c)|
  {
    var s := Encode(c) + rest;
    if 0x800 <= c < 0x1_0000 {
      assert c / 4096 == (c / 64) / 64;
    } else if 0x1_0000 <= c {
      assert c / 4096 == (c / 64) / 64 && c / 262_144 == (c / 4096) / 64;
    }
  }

  lemma Digits(a: nat, b: nat)
    requires b < 64
    ensures (a * 64 + b) / 64 == a && (a * 64 + b) % 64 == b
  {
  }

  lemma TwoBytes(a: nat, b: nat)
    requires 2 <= a < 32 && b < 64
    ensures Encode(a * 64 + b) == [0xC0 + a, 0x80 + b]
  {
    Digits(a, b);
  }

  lemma ThreeBytes(a: nat, b: nat, c: nat)
    requires a < 16 && b < 64 && c < 64 && 0x800 <= (a * 64 + b) * 64 + c && IsScalar((a * 64 + b) * 64 + c)
    ensures Encode((a * 64 + b) * 64 + c) == [0xE0 + a, 0x80 + b, 0x80 + c]
  {
    Digits(a * 64 + b, c);
    Digits(a, b);
    assert ((a * 64 + b) * 64 + c) / 4096 == a;
  }

  lemma FourBytes(a: nat, b: nat, c: nat, d: nat)
    requires a < 8 && b < 64 && c < 64 && d < 64
    requires 0x1_0000 <= ((a * 64 + b) * 64 + c) * 64 + d < 0x11_0000
    ensures Encode(((a * 64 + b) * 64 + c) * 64 + d) == [0xF0 + a, 0x80 + b, 0x80 + c, 0x80 + d]
  {
    Digits((a * 64 + b) * 64 + c, d);
    Digits(a * 64 + b, c);
    Digits(a, b);
    assert (((a * 64 + b) * 64 + c) * 64 + d) / 4096 == a * 64 + b;
    assert (((a * 64 + b) * 64 + c) * 64 + d) / 262_144 == a;
  }

  /** What is recognised is an encoded scalar value. */
  lemma RuneIsEncoded(s: Text) returns (c: nat)
    requires RuneLength(s) > 0
    ensures IsScalar(c) && Encode(c) == s[..RuneLength(s)]
  {
    hide Encode;
    var n := RuneLength(s);
    var first: int := s[0];
    if n == 1 {
      c := first;
      OneByte(c);
    } else if n == 2 {
      c := (first - 0xC0) * 64 + Low(s, 1);
      TwoBytes(first - 0xC0, Low(s, 1));
    } else if n == 3 {
      c := ((first - 0xE0) * 64 + Low(s, 1)) * 64 + Low(s, 2);
      ThreeBytes(first - 0xE0, Low(s, 1), Low(s, 2));
    } else {
      c := (((first - 0xF0) * 64 + Low(s, 1)) * 64 + Low(s, 2)) * 64 + Low(s, 3);
      FourBytes(first - 0xF0, Low(s, 1), Low(s, 2), Low(s, 3));
    }
  }

  lemma OneByte(c: nat)
    requires c < 0x80
    ensures Encode(c) == [c]
  {
  }

  /** The six bits that a continuation byte carries. */
  function Low(s: Text, i: nat): (bits: int)
    requires i < |s| && IsContinuation(s[i])
    ensures 0 <= bits < 64 && s[i] == 0x80 + bits
  {
    var b: int := s[i];
    b - 0x80
  }

  lemma {:induction false} EncodedIsValid(cs: seq<nat>)
    requires AllScalars(cs)
    ensures ValidUtf8(EncodeAll(cs))
  {
    hide RuneLength, Encode;
    if cs != [] {
      EncodedIsValid(cs[1..]);
      EncodedIsRune(cs[0], EncodeAll(cs[1..]));
      assert EncodeAll(cs)[|Encode(cs[0])|..] == EncodeAll(cs[1..]);
    }
  }

  lemma {:induction false} ValidIsEncoded(s: Text) returns (cs: seq<nat>)
    requires ValidUtf8(s)
    ensures AllScalars(cs) && EncodeAll(cs) == s
    decreases |s|
  {
    hide RuneLength, Encode;
    cs := [];
    if s != [] {
      var n := RuneLength(s);
      var c := RuneIsEncoded(s);
      var rest := ValidIsEncoded(s[n..]);
      cs := [c] + rest;
      assert cs[1..] == rest;
      assert s == s[..n] + s[n..];
    }
  }

  /** Text is well-formed exactly when it is the encoding of scalar values one after the other. */
  lemma ValidMeansEncoded(s: Text)
    ensures ValidUtf8(s) <==> exists cs :: AllScalars(cs) && EncodeAll(cs) == s
  {
    hide ValidUtf8, EncodeAll, AllScalars;
    if ValidUtf8(s) {
      var cs := ValidIsEncoded(s);
    }
    if cs :| AllScalars(cs) && EncodeAll(cs) == s {
      EncodedIsValid(cs);
    }
  }
}
