/**
 UTF-8 as RFC 3629 defines it, over byte texts: which texts a Rust `String`
 may hold, and where it may be cut.
 */
module Utf8 {
  /** A tail byte, 80-BF (RFC 3629, section 3). */
  predicate IsTail(c: char) {
    0x80 <= c as int <= 0xBF
  }

  predicate IsAscii(c: char) {
    c as int < 0x80
  }

  predicate InRange(c: char, low: int, high: int) {
    low <= c as int <= high
  }

  /** Length of the well-formed character `s` starts with (grammar of RFC 3629, section 4), or 0. */
  function CharLength(s: string): (n: nat)
    ensures n <= |s| && n <= 4
  {
    if |s| >= 1 && IsAscii(s[0]) then 1
    else if |s| >= 2 && InRange(s[0], 0xC2, 0xDF) && IsTail(s[1]) then 2
    else if |s| >= 3 && IsTail(s[2]) && ThreeByteLead(s[0], s[1]) then 3
    else if |s| >= 4 && IsTail(s[2]) && IsTail(s[3]) && FourByteLead(s[0], s[1]) then 4
    else 0
  }

  predicate ThreeByteLead(c: char, d: char) {
    || (c as int == 0xE0 && InRange(d, 0xA0, 0xBF))
    || (InRange(c, 0xE1, 0xEC) && IsTail(d))
    || (c as int == 0xED && InRange(d, 0x80, 0x9F))
    || (InRange(c, 0xEE, 0xEF) && IsTail(d))
  }

  predicate FourByteLead(c: char, d: char) {
    || (c as int == 0xF0 && InRange(d, 0x90, 0xBF))
    || (InRange(c, 0xF1, 0xF3) && IsTail(d))
    || (c as int == 0xF4 && InRange(d, 0x80, 0x8F))
  }

  predicate Valid(s: string) {
    s == [] || (CharLength(s) > 0 && Valid(s[CharLength(s)..]))
  }

  /** `str::is_char_boundary`. */
  predicate IsCharBoundary(s: string, at: nat) {
    at == 0 || at == |s| || (at < |s| && !IsTail(s[at]))
  }

  /** The first character only depends on its own bytes. */
  lemma CharLengthKept(s: string, t: string)
    requires CharLength(s) > 0 && CharLength(s) <= |t| && t[..CharLength(s)] == s[..CharLength(s)]
    ensures CharLength(t) == CharLength(s)
  {
    var n := CharLength(s);
    assert forall k :: 0 <= k < n ==> t[..n][k] == s[..n][k];
  }

  lemma FirstCharBytes(s: string, k: nat)
    requires k < CharLength(s)
    ensures IsTail(s[k]) <==> k > 0
  {
  }

  /** A valid text splits at every boundary. */
  lemma {:induction false} SplitsAtBoundary(s: string, at: nat)
    requires Valid(s) && at <= |s| && IsCharBoundary(s, at)
    ensures Valid(s[..at]) && Valid(s[at..])
    decreases |s|
  {
    if at == 0 {
      assert s[..0] == [] && s[0..] == s;
    } else {
      var n := CharLength(s);
      if at < n {
        FirstCharBytes(s, at);
      } else {
        assert at < |s| ==> s[n..][at - n] == s[at];
        SplitsAtBoundary(s[n..], at - n);
        assert s[n..][at - n..] == s[at..];
        PrependChar(s, s[..at]);
        assert s[..at][n..] == s[n..][..at - n];
      }
    }
  }

  lemma PrependChar(s: string, t: string)
    requires CharLength(s) > 0 && CharLength(s) <= |t| && t[..CharLength(s)] == s[..CharLength(s)]
    ensures Valid(t) <==> Valid(t[CharLength(s)..])
  {
    CharLengthKept(s, t);
  }

  lemma {:induction false} JoinsValid(a: string, b: string)
    requires Valid(a) && Valid(b)
    ensures Valid(a + b)
    decreases |a|
  {
    if a == [] {
      assert a + b == b;
    } else {
      var n := CharLength(a);
      hide CharLength;
      JoinsValid(a[n..], b);
      SplitJoined(a, b, n);
      hide Valid;
      PrependChar(a, a + b);
    }
  }

  lemma SplitJoined(a: string, b: string, n: nat)
    requires n <= |a|
    ensures (a + b)[..n] == a[..n] && (a + b)[n..] == a[n..] + b
  {
  }

  /** Where a valid text has a valid prefix, it has a boundary. */
  lemma {:induction false} ValidPrefixEndsAtBoundary(s: string, at: nat)
    requires Valid(s) && at <= |s| && Valid(s[..at])
    ensures IsCharBoundary(s, at)
    decreases |s|
  {
    if 0 < at < |s| {
      var t := s[..at];
      var n := CharLength(t);
      assert s[..n] == t[..n];
      CharLengthKept(t, s);
      assert s[n..][..at - n] == t[n..];
      ValidPrefixEndsAtBoundary(s[n..], at - n);
      if at == n {
        FirstCharBytes(s[n..], 0);
      } else {
        assert s[n..][at - n] == s[at];
      }
    }
  }

  /** Behind a one-byte character there is a boundary. */
  lemma {:induction false} BoundaryBehindAscii(s: string, at: nat)
    requires Valid(s) && at < |s| && IsAscii(s[at])
    ensures IsCharBoundary(s, at) && IsCharBoundary(s, at + 1)
    decreases |s|
  {
    var n := CharLength(s);
    if at < n {
      if at > 0 {
        FirstCharBytes(s, at);
      } else if n < |s| {
        FirstCharBytes(s[n..], 0);
      }
    } else {
      BoundaryBehindAscii(s[n..], at - n);
      assert at + 1 < |s| ==> s[n..][at + 1 - n] == s[at + 1];
    }
  }

  /** No more than three bytes separate a position from a boundary before it. */
  lemma {:induction false} BoundaryNearby(s: string, at: nat) returns (boundary: nat)
    requires Valid(s) && at <= |s|
    ensures boundary <= at <= boundary + 3 && IsCharBoundary(s, boundary)
    decreases |s|
  {
    if at == |s| {
      return at;
    }
    var n := CharLength(s);
    if at < n {
      return 0;
    }
    var b := BoundaryNearby(s[n..], at - n);
    boundary := b + n;
    if b == 0 && n < |s| {
      FirstCharBytes(s[n..], 0);
    } else if boundary < |s| {
      assert s[n..][b] == s[boundary];
    }
  }

  predicate AllAscii(s: string) {
    forall k :: 0 <= k < |s| ==> IsAscii(s[k])
  }

  lemma {:induction false} AsciiIsValid(s: string)
    requires AllAscii(s)
    ensures Valid(s)
    decreases |s|
  {
    if s != [] {
      AsciiIsValid(s[1..]);
    }
  }

  /** Cutting a stretch out at boundaries and putting a valid text there keeps the text valid. */
  lemma ReplaceKeepsValid(s: string, from: nat, to: nat, insert: string)
    requires Valid(s) && from <= to <= |s| && Valid(insert)
    requires IsCharBoundary(s, from) && IsCharBoundary(s, to)
    ensures Valid(s[..from] + insert + s[to..])
  {
    SplitsAtBoundary(s, from);
    SplitsAtBoundary(s, to);
    JoinsValid(s[..from], insert);
    JoinsValid(s[..from] + insert, s[to..]);
  }

  // ------------------------------------------------------------ encoding

  /** A Unicode scalar value. */
  predicate IsScalar(c: nat) {
    c < 0xD800 || 0xE000 <= c <= 0x10FFFF
  }

  function Byte(n: nat): (b: char)
    requires n < 0x100
    ensures b as int == n
  {
    n as char
  }

  function Tail(n: nat): (b: char)
    ensures IsTail(b) && b as int == 0x80 + n % 64
  {
    Byte(0x80 + n % 64)
  }

  /** The encoding of a scalar value (RFC 3629, section 3). */
  function Encode(c: nat): (s: string)
    requires IsScalar(c)
  {
    if c < 0x80 then [Byte(c)]
    else if c < 0x800 then [Byte(0xC0 + c / 64), Tail(c)]
    else if c < 0x1_0000 then [Byte(0xE0 + c / 64 / 64), Tail(c / 64), Tail(c)]
    else [Byte(0xF0 + c / 64 / 64 / 64), Tail(c / 64 / 64), Tail(c / 64), Tail(c)]
  }

  lemma Digits(c: nat, high: nat, low: nat)
    requires low < 64
    ensures c == 64 * high + low <==> high == c / 64 && low == c % 64
  {
  }

  lemma ThreeBytes(a: nat, b: nat)
    requires a < 16 && b < 64 && (a == 0 ==> 32 <= b) && (a == 13 ==> b < 32)
    ensures ThreeByteLead(Byte(0xE0 + a), Byte(0x80 + b))
  {
  }

  lemma FourBytes(a: nat, b: nat)
    requires a <= 4 && b < 64 && (a == 0 ==> 16 <= b) && (a == 4 ==> b < 16)
    ensures FourByteLead(Byte(0xF0 + a), Byte(0x80 + b))
  {
  }

  /** The encoding of a scalar value is one well-formed character, whatever follows. */
  lemma EncodedIsChar(c: nat, rest: string)
    requires IsScalar(c)
    ensures CharLength(Encode(c) + rest) == |Encode(c)| > 0
  {
    var b, a := c / 64, c / 64 / 64;
    if 0x800 <= c < 0x1_0000 {
      ThreeBytes(a, b % 64);
      hide ThreeByteLead, FourByteLead;
    } else if 0x1_0000 <= c {
      FourBytes(a / 64, a % 64);
      hide ThreeByteLead, FourByteLead;
    }
  }

  /** What the bytes of a character stand for. */
  function Decoded(s: string): (c: int)
    requires CharLength(s) > 0
  {
    match CharLength(s)
    case 1 => s[0] as int
    case 2 => (s[0] as int - 0xC0) * 64 + (s[1] as int - 0x80)
    case 3 => ((s[0] as int - 0xE0) * 64 + (s[1] as int - 0x80)) * 64 + (s[2] as int - 0x80)
    case _ =>
      (((s[0] as int - 0xF0) * 64 + (s[1] as int - 0x80)) * 64 + (s[2] as int - 0x80)) * 64 + (s[3] as int - 0x80)
  }

  /** And every well-formed character is the encoding of one. */
  lemma CharIsEncoded(s: string)
    requires CharLength(s) > 0
    ensures Decoded(s) >= 0 && IsScalar(Decoded(s)) && Encode(Decoded(s)) == s[..CharLength(s)]
  {
    var n := CharLength(s);
    if n == 2 {
      TwoDecode(s);
    } else if n == 3 {
      ThreeDecode(s);
    } else if n == 4 {
      FourDecode(s);
    }
  }

  lemma TwoDecode(s: string)
    requires CharLength(s) == 2
    ensures Decoded(s) >= 0 && IsScalar(Decoded(s)) && Encode(Decoded(s)) == s[..2]
  {
    Digits(Decoded(s), s[0] as int - 0xC0, s[1] as int - 0x80);
  }

  lemma ThreeDecode(s: string)
    requires CharLength(s) == 3
    ensures Decoded(s) >= 0 && IsScalar(Decoded(s)) && Encode(Decoded(s)) == s[..3]
  {
    var high := (s[0] as int - 0xE0) * 64 + (s[1] as int - 0x80);
    Digits(Decoded(s), high, s[2] as int - 0x80);
    Digits(high, s[0] as int - 0xE0, s[1] as int - 0x80);
  }

  lemma FourDecode(s: string)
    requires CharLength(s) == 4
    ensures Decoded(s) >= 0 && IsScalar(Decoded(s)) && Encode(Decoded(s)) == s[..4]
  {
    var top := (s[0] as int - 0xF0) * 64 + (s[1] as int - 0x80);
    var high := top * 64 + (s[2] as int - 0x80);
    Digits(Decoded(s), high, s[3] as int - 0x80);
    Digits(high, top, s[2] as int - 0x80);
    Digits(top, s[0] as int - 0xF0, s[1] as int - 0x80);
  }

  function EncodeAll(scalars: seq<nat>): (s: string)
    requires forall i :: 0 <= i < |scalars| ==> IsScalar(scalars[i])
  {
    if scalars == [] then [] else Encode(scalars[0]) + EncodeAll(scalars[1..])
  }

  /** A text is valid exactly if it encodes some scalar values. */
  lemma {:induction false} EncodedIsValid(scalars: seq<nat>)
    requires forall i :: 0 <= i < |scalars| ==> IsScalar(scalars[i])
    ensures Valid(EncodeAll(scalars))
  {
    if scalars != [] {
      var first, rest := Encode(scalars[0]), EncodeAll(scalars[1..]);
      EncodedIsValid(scalars[1..]);
      EncodedIsChar(scalars[0], rest);
      assert (first + rest)[|first|..] == rest;
    }
  }

  lemma {:induction false} ValidIsEncoded(s: string) returns (scalars: seq<nat>)
    requires Valid(s)
    ensures forall i :: 0 <= i < |scalars| ==> IsScalar(scalars[i])
    ensures s == EncodeAll(scalars)
    decreases |s|
  {
    if s == [] {
      scalars := [];
    } else {
      var n := CharLength(s);
      CharIsEncoded(s);
      var rest := ValidIsEncoded(s[n..]);
      scalars := [Decoded(s)] + rest;
      assert scalars[1..] == rest;
      assert s == s[..n] + s[n..];
    }
  }
}
