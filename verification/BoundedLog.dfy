/**
 What happens to a log line before it is queued
 (crates/sakala-agent-core/src/reporting/runtime.rs, `bounded_log` and its
 helpers): redact, collapse line breaks, trim, and cut to the limits.
 */
module BoundedLog {
  import opened Wrappers
  import opened Utf8
  import opened Redactor

  datatype LogStream = Stdout | Stderr | System

  datatype DeploymentLog = DeploymentLog(stream: LogStream, message: string, recordedAt: int)

  /** Policy of the control plane; every limit is optional. */
  datatype LogBounds = LogBounds(
    maxLineLength: Option<nat>,
    maxBatchLines: Option<nat>,
    maxTotalBytes: Option<nat>)

  /** `\r` and `\n` become spaces. */
  function CollapseBreaks(value: string): (r: string)
    ensures |r| == |value|
    ensures forall k :: 0 <= k < |r| ==> r[k] == if value[k] == '\r' || value[k] == '\n' then ' ' else value[k]
  {
    seq(|value|, k requires 0 <= k < |value| => if value[k] == '\r' || value[k] == '\n' then ' ' else value[k])
  }

  /**
   Length of the Unicode white-space character (`char::is_whitespace`) that
   ends the text, or 0.
   */
  function TrailingSpace(s: string): (n: nat)
    ensures n <= |s| && n <= 3
  {
    var last := |s| - 1;
    if |s| >= 1 && (s[last] == ' ' || InRange(s[last], 0x09, 0x0D)) then 1
    else if |s| >= 2 && s[last - 1] as int == 0xC2 && (s[last] as int == 0x85 || s[last] as int == 0xA0) then 2
    else if |s| >= 3 && IsWideSpace(s[last - 2] as int, s[last - 1] as int, s[last] as int) then 3
    else 0
  }

  /** U+1680, U+2000-200A, U+2028, U+2029, U+202F, U+205F and U+3000, as bytes. */
  predicate IsWideSpace(a: int, b: int, c: int) {
    || (a == 0xE1 && b == 0x9A && c == 0x80)
    || (a == 0xE2 && b == 0x80 && (0x80 <= c <= 0x8A || c == 0xA8 || c == 0xA9 || c == 0xAF))
    || (a == 0xE2 && b == 0x81 && c == 0x9F)
    || (a == 0xE3 && b == 0x80 && c == 0x80)
  }

  /** `str::trim_end`. */
  function TrimEnd(s: string): (r: string)
    ensures r <= s
    ensures TrailingSpace(r) == 0
    decreases |s|
  {
    var n := TrailingSpace(s);
    if n == 0 then s else TrimEnd(s[..|s| - n])
  }

  /** The text consists of white space only. */
  predicate AllSpace(s: string)
    decreases |s|
  {
    s == [] || (TrailingSpace(s) > 0 && AllSpace(s[..|s| - TrailingSpace(s)]))
  }

  /** Trimming drops white space and nothing else. */
  lemma {:induction false} TrimDropsOnlySpace(s: string)
    ensures AllSpace(s[|TrimEnd(s)|..])
    decreases |s|
  {
    var n := TrailingSpace(s);
    if n > 0 {
      var shorter, kept := s[..|s| - n], |TrimEnd(s)|;
      TrimDropsOnlySpace(shorter);
      var dropped := s[kept..];
      assert dropped[..|dropped| - n] == shorter[kept..];
      SpaceInSuffix(s, kept);
    }
  }

  lemma SpaceInSuffix(s: string, from: nat)
    requires from + TrailingSpace(s) <= |s| && TrailingSpace(s) > 0
    ensures TrailingSpace(s[from..]) == TrailingSpace(s)
  {
  }

  /** The scalar values of the Unicode property White_Space. */
  predicate IsWhiteSpaceScalar(c: nat) {
    || 0x09 <= c <= 0x0D || c in {0x20, 0x85, 0xA0, 0x1680, 0x2028, 0x2029, 0x202F, 0x205F, 0x3000}
    || 0x2000 <= c <= 0x200A
  }

  predicate EndsIn(s: string, suffix: string) {
    |suffix| <= |s| && s[|s| - |suffix|..] == suffix
  }

  /** A text ends in white space exactly if it ends in the encoding of one of those. */
  lemma TrailingSpaceIff(s: string)
    ensures TrailingSpace(s) > 0 <==>
              exists c: nat :: IsWhiteSpaceScalar(c) && IsScalar(c) && EndsIn(s, Encode(c))
  {
    if TrailingSpace(s) > 0 {
      var c := TrailingScalar(s);
    }
    if c: nat :| IsWhiteSpaceScalar(c) && IsScalar(c) && EndsIn(s, Encode(c)) {
      ScalarTrails(s, c);
    }
  }

  lemma TrailingScalar(s: string) returns (c: nat)
    requires TrailingSpace(s) > 0
    ensures IsWhiteSpaceScalar(c) && IsScalar(c) && EndsIn(s, Encode(c)) && TrailingSpace(s) == |Encode(c)|
  {
    var n := TrailingSpace(s);
    var t := s[|s| - n..];
    assert CharLength(t) == n;
    CharIsEncoded(t);
    c := Decoded(t);
    hide Encode;
    assert t[..n] == t;
  }

  lemma ScalarTrails(s: string, c: nat)
    requires IsWhiteSpaceScalar(c) && IsScalar(c) && EndsIn(s, Encode(c))
    ensures TrailingSpace(s) > 0
  {
    var t := Encode(c);
    assert forall k :: 0 <= k < |t| ==> s[|s| - |t| + k] == s[|s| - |t|..][k] == t[k];
  }

  function SanitiseLine(value: string): (r: string) {
    TrimEnd(CollapseBreaks(value))
  }

  /** The greatest character boundary at or before `at`. */
  function BoundaryBefore(value: string, at: nat): (boundary: nat)
    requires at <= |value|
    ensures boundary <= at && IsCharBoundary(value, boundary)
    ensures forall b: nat :: b <= at && IsCharBoundary(value, b) ==> b <= boundary
    decreases at
  {
    if IsCharBoundary(value, at) then at else BoundaryBefore(value, at - 1)
  }

  function Truncated(value: string, maximum: Option<nat>): (r: string)
    ensures r <= value
    ensures maximum.Some? ==> |r| <= maximum.value
  {
    if maximum.None? || |value| <= maximum.value then value
    else value[..BoundaryBefore(value, maximum.value)]
  }

  method TruncateUtf8(value: string, maximum: Option<nat>) returns (r: string)
    ensures r == Truncated(value, maximum)
  {
    r := value;
    if maximum.None? || |value| <= maximum.value {
      return;
    }
    var boundary: nat := maximum.value;
    while boundary > 0 && !IsCharBoundary(value, boundary)
      invariant boundary <= maximum.value
      invariant BoundaryBefore(value, boundary) == BoundaryBefore(value, maximum.value)
    {
      boundary := boundary - 1;
    }
    r := r[..boundary];
  }

  /**
   Truncation keeps valid text valid and gives the longest valid prefix within
   the limit, which is at most three bytes short of it.
   */
  lemma TruncatedIsLongest(value: string, maximum: nat)
    requires Valid(value)
    ensures var r := Truncated(value, Some(maximum));
            && Valid(r)
            && (forall p: string :: p <= value && |p| <= maximum && Valid(p) ==> p <= r)
            && (maximum < |value| ==> maximum <= |r| + 3)
  {
    var r := Truncated(value, Some(maximum));
    if maximum < |value| {
      var boundary := BoundaryNearby(value, maximum);
    }
    assert r == value[..|r|];
    SplitsAtBoundary(value, |r|);
    forall p: string | p <= value && |p| <= maximum && Valid(p) ensures p <= r {
      assert p == value[..|p|];
      ValidPrefixEndsAtBoundary(value, |p|);
      assert |p| <= |r|;
    }
  }

  /** A line is queued, dropped by policy, or redaction panics. */
  datatype Bounded = Panics | Dropped | Kept(log: DeploymentLog)

  /** `bounded_log`, given the bytes already accepted for this command. */
  function BoundLog(log: DeploymentLog, bounds: LogBounds, sent: nat): (r: Bounded) {
    if bounds.maxBatchLines == Some(0) then Dropped
    else
      match RedactLine(log.message)
      case None => Panics
      case Some(redacted) =>
        var line := Truncated(SanitiseLine(redacted), bounds.maxLineLength);
        if bounds.maxTotalBytes.Some? && sent >= bounds.maxTotalBytes.value then Dropped
        else
          var rest := if bounds.maxTotalBytes.Some? then Some(bounds.maxTotalBytes.value - sent) else None;
          var message := Truncated(line, rest);
          if message == [] then Dropped else Kept(log.(message := message))
  }

  /** The smaller of two optional limits. */
  function Tighter(a: Option<nat>, b: Option<nat>): (limit: Option<nat>) {
    if a.None? then b
    else if b.None? then a
    else if a.value <= b.value then a
    else b
  }

  /** Cutting to one limit and then to another is cutting once, to the smaller. */
  lemma TwoCutsAreOne(value: string, a: Option<nat>, b: Option<nat>)
    ensures Truncated(Truncated(value, a), b) == Truncated(value, Tighter(a, b))
  {
    if a.Some? && b.Some? && a.value < |value| {
      var cut := BoundaryBefore(value, a.value);
      var once := value[..cut];
      if b.value < cut {
        SameBoundaries(value, cut, b.value);
      } else if b.value < a.value {
        assert BoundaryBefore(value, b.value) == cut;
      }
    }
  }

  lemma {:induction false} SameBoundaries(value: string, cut: nat, at: nat)
    requires at < cut <= |value|
    ensures BoundaryBefore(value[..cut], at) == BoundaryBefore(value, at)
  {
    if !IsCharBoundary(value, at) {
      SameBoundaries(value, cut, at - 1);
    }
  }

  /**
   Exactly when a line is queued, and what is left of it: the policy allows
   lines, the byte budget is not used up, and the redacted and trimmed line, cut
   once to the tighter of line limit and remaining budget, is not empty.
   */
  lemma KeptIff(log: DeploymentLog, bounds: LogBounds, sent: nat)
    requires RedactLine(log.message).Some?
    ensures var rest := if bounds.maxTotalBytes.Some? && sent <= bounds.maxTotalBytes.value
                        then Some(bounds.maxTotalBytes.value - sent) else None;
            var message := Truncated(SanitiseLine(RedactLine(log.message).value), Tighter(bounds.maxLineLength, rest));
            && (BoundLog(log, bounds, sent).Kept? <==>
                  && bounds.maxBatchLines != Some(0)
                  && (bounds.maxTotalBytes.Some? ==> sent < bounds.maxTotalBytes.value)
                  && message != [])
            && (BoundLog(log, bounds, sent).Kept? ==>
                  BoundLog(log, bounds, sent).log == log.(message := message))
  {
    var line := SanitiseLine(RedactLine(log.message).value);
    var rest := if bounds.maxTotalBytes.Some? && sent <= bounds.maxTotalBytes.value
                then Some(bounds.maxTotalBytes.value - sent) else None;
    TwoCutsAreOne(line, bounds.maxLineLength, rest);
    hide RedactLine, SanitiseLine, Truncated;
  }

  /** What is accepted of a line that no limit cuts ends in no white space. */
  lemma UncutIsTrimmed(log: DeploymentLog, bounds: LogBounds, sent: nat, c: nat)
    requires BoundLog(log, bounds, sent).Kept? && IsWhiteSpaceScalar(c) && IsScalar(c)
    requires bounds.maxLineLength.Some? ==> |RedactLine(log.message).value| <= bounds.maxLineLength.value
    requires bounds.maxTotalBytes.Some? ==> sent + |RedactLine(log.message).value| <= bounds.maxTotalBytes.value
    ensures !EndsIn(BoundLog(log, bounds, sent).log.message, Encode(c))
  {
    TrailingSpaceIff(BoundLog(log, bounds, sent).log.message);
    hide RedactLine, Encode, TrailingSpace;
  }

  lemma {:induction false} AllSpaceTrims(s: string)
    requires AllSpace(s)
    ensures TrimEnd(s) == []
    decreases |s|
  {
    if s != [] {
      AllSpaceTrims(s[..|s| - TrailingSpace(s)]);
    }
  }

  /** A line of white space alone is not queued. */
  lemma BlankLineIsDropped(log: DeploymentLog, bounds: LogBounds, sent: nat)
    requires RedactLine(log.message).Some? && AllSpace(CollapseBreaks(RedactLine(log.message).value))
    ensures BoundLog(log, bounds, sent).Dropped?
  {
    hide RedactLine, AllSpace;
    AllSpaceTrims(CollapseBreaks(RedactLine(log.message).value));
  }
}
