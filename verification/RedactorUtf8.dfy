/**
 The redactor and UTF-8: `String::replace_range` panics unless both ends are
 character boundaries. Every replacement of every pass meets that, so the only
 panic left is the one of the bearer pass, and the line stays a valid `String`.
 */
module RedactorUtf8 {
  import opened Wrappers
  import opened AsciiText
  import opened Redactor
  import opened RedactorSites
  import opened RedactorTheorems
  import opened Utf8

  /** What `replace_range` needs: both cuts are character boundaries. */
  predicate CanReplace(text: string, cursor: nat, end: nat) {
    cursor <= end <= |text| && IsCharBoundary(text, cursor) && IsCharBoundary(text, end)
  }

  lemma MarkKeepsValid(text: string, cursor: nat, end: nat)
    requires Valid(text) && CanReplace(text, cursor, end)
    ensures Valid(Mark(text, cursor, end))
  {
    AsciiIsValid(REDACTED);
    ReplaceKeepsValid(text, cursor, end, REDACTED);
  }

  /** An ASCII byte class ends at a boundary. */
  lemma SeekEndsAtBoundary(text: string, from: nat, stop: Stop)
    requires from <= |text| && stop !in {NotSpace, NotSpaceOrQuote}
    requires stop.Exactly? ==> IsAscii(stop.c)
    ensures IsCharBoundary(text, Seek(text, from, stop))
  {
    SeeksFirst(text, from, stop);
  }

  /** A value starts right behind its separator, a space or its quote. */
  lemma ValueStartsBehindAscii(text: string, key: string, start: nat)
    requires |key| > 0 && start + |key| <= |text| && SiteAt(text, key, start).Assigned?
    ensures IsAscii(text[SiteAt(text, key, start).cursor - 1])
  {
    SeparatorIsAscii(text, key, start);
    SeeksFirst(text, SiteAt(text, key, start).separator + 1, NotSpace);
  }

  lemma SeparatorIsAscii(text: string, key: string, start: nat)
    requires |key| > 0 && start + |key| <= |text| && SiteAt(text, key, start).Assigned?
    ensures IsAscii(text[SiteAt(text, key, start).separator])
  {
  }

  lemma ValueEndIsBoundary(text: string, key: string, quote: Option<char>, cursor: nat)
    requires cursor <= |text| && (quote.Some? ==> IsQuote(quote.value))
    ensures IsCharBoundary(text, ValueEnd(text, key, quote, cursor))
  {
    if key == AUTHORIZATION && MatchesAt(text, cursor, BEARER) {
      SeekEndsAtBoundary(text, cursor + |BEARER|, SpaceCommaSemicolonQuote);
    } else {
      SeekEndsAtBoundary(text, cursor, if quote.Some? then Exactly(quote.value) else SpaceCommaSemicolon);
    }
  }

  lemma ValueCanBeReplaced(text: string, key: string, start: nat)
    requires |key| > 0 && start + |key| <= |text| && Valid(text) && SiteAt(text, key, start).Assigned?
    ensures var site := SiteAt(text, key, start); CanReplace(text, site.cursor, site.end)
  {
    hide Valid;
    var site := SiteAt(text, key, start);
    ValueStartsBehindAscii(text, key, start);
    BoundaryBehindAscii(text, site.cursor - 1);
    ValueEndIsBoundary(text, key, OpeningQuote(text, site.separator).1, site.cursor);
  }

  lemma {:induction false} AssignmentPassKeepsValid(text: string, key: string, from: nat)
    requires |key| > 0 && from <= |text| && Valid(text)
    ensures Valid(RedactAssignmentFrom(text, key, from))
    decreases |text| - from
  {
    if FindFrom(text, key, from).Some? {
      var start := FindFrom(text, key, from).value;
      var site, next := SiteAt(text, key, start), RewriteSite(text, key, start);
      if NeedsMark(site) {
        ValueCanBeReplaced(text, key, start);
        MarkKeepsValid(text, site.cursor, site.end);
      }
      hide Mark, Valid, SiteAt;
      AssignmentPassKeepsValid(next.text, key, next.from);
    }
  }

  lemma BearerTokenCanBeReplaced(text: string, start: nat)
    requires Valid(text) && MatchesAt(text, start, BEARER)
    ensures var token := start + |BEARER|;
            CanReplace(text, token, Seek(text, token, SpaceCommaSemicolonQuote))
  {
    var token := start + |BEARER|;
    MatchByte(text, start, BEARER, 6);
    BoundaryBehindAscii(text, token - 1);
    SeekEndsAtBoundary(text, token, SpaceCommaSemicolonQuote);
  }

  lemma BearerStepKeepsValid(text: string, start: nat)
    requires Valid(text) && MatchesAt(text, start, BEARER)
    ensures Valid(RewriteBearer(text, start).text)
  {
    var token := start + |BEARER|;
    BearerTokenCanBeReplaced(text, start);
    hide Mark, Valid, MatchesAt;
    MarkKeepsValid(text, token, Seek(text, token, SpaceCommaSemicolonQuote));
  }

  lemma {:induction false} BearerPassKeepsValid(text: string, from: nat)
    requires Valid(text)
    ensures var r := RedactBearerFrom(text, from); r.Some? ==> Valid(r.value)
    decreases |text| - from
  {
    hide RewriteBearer, Valid;
    if from <= |text| && FindFrom(text, BEARER, from).Some? {
      var start := FindFrom(text, BEARER, from).value;
      var next := RewriteBearer(text, start);
      FindsFirst(text, BEARER, from);
      BearerStepKeepsValid(text, start);
      BearerPassKeepsValid(next.text, next.from);
    }
  }

  lemma PrefixTokenCanBeReplaced(text: string, prefix: string, start: nat)
    requires Valid(text) && IsNeedle(prefix) && MatchesAt(text, start, prefix)
    ensures CanReplace(text, start, Seek(text, start, SpaceCommaSemicolonQuote))
  {
    MatchStartsWithWordByte(text, start, prefix);
    BoundaryBehindAscii(text, start);
    SeekEndsAtBoundary(text, start, SpaceCommaSemicolonQuote);
  }

  lemma {:induction false} PrefixPassKeepsValid(text: string, prefix: string, from: nat)
    requires Valid(text) && IsNeedle(prefix) && StartsToken(prefix) && from <= |text|
    ensures Valid(RedactPrefixFrom(text, prefix, from))
    decreases |text| - from
  {
    FindsFirst(text, prefix, from);
    if FindFrom(text, prefix, from).Some? {
      var start := FindFrom(text, prefix, from).value;
      var next := RewritePrefix(text, prefix, start);
      PrefixTokenCanBeReplaced(text, prefix, start);
      MarkKeepsValid(text, start, Seek(text, start, SpaceCommaSemicolonQuote));
      hide Mark, Valid, MatchesAt, IsNeedle;
      PrefixPassKeepsValid(next.text, prefix, next.from);
    }
  }

  lemma {:induction false} KeysKeepValid(line: string, n: nat)
    requires n <= |SENSITIVE_KEYS| && Valid(line)
    ensures Valid(RedactKeys(line, n))
  {
    if n > 0 {
      KeysKeepValid(line, n - 1);
      KeyFacts(n - 1);
      AssignmentPassKeepsValid(RedactKeys(line, n - 1), SENSITIVE_KEYS[n - 1], 0);
    }
  }

  lemma {:induction false} PrefixesKeepValid(text: string, n: nat)
    requires n <= |TOKEN_PREFIXES| && Valid(text)
    ensures Valid(RedactPrefixes(text, n))
  {
    if n > 0 {
      PrefixesKeepValid(text, n - 1);
      PrefixFacts(n - 1);
      PrefixPassKeepsValid(RedactPrefixes(text, n - 1), TOKEN_PREFIXES[n - 1], 0);
    }
  }

  /** `redact_line` turns valid text into valid text. */
  lemma LineStaysValid(line: string)
    requires Valid(line) && RedactLine(line).Some?
    ensures Valid(RedactLine(line).value)
  {
    KeysKeepValid(line, |SENSITIVE_KEYS|);
    var keyed := RedactKeys(line, |SENSITIVE_KEYS|);
    BearerPassKeepsValid(keyed, 0);
    PrefixesKeepValid(RedactBearerFrom(keyed, 0).value, |TOKEN_PREFIXES|);
  }

  // ------------------------------------------------------------ the panic of the bearer pass

  /**
   Where the scan goes on behind the `bearer ` at `start`, read on the unedited
   line: behind its token or, when it has none, as many bytes on as the marker
   is long, which may be more than there are.
   */
  function Resume(text: string, start: nat): (next: nat)
    requires start + |BEARER| <= |text|
    ensures start < next
  {
    var token := start + |BEARER|;
    var end := Seek(text, token, SpaceCommaSemicolonQuote);
    if token < end then end else token + |REDACTED|
  }

  /** The scan of the unedited line reaches a position past its end. */
  predicate RunsOut(text: string, from: nat)
    decreases |text| - from
  {
    || from > |text|
    || (FindFrom(text, BEARER, from).Some? && RunsOut(text, Resume(text, FindFrom(text, BEARER, from).value)))
  }

  lemma ResumeMoves(u: string, at: nat, v: string, to: nat, start: nat)
    requires at <= start && start + |BEARER| <= |u| && to <= |v| && u[at..] == v[to..]
    ensures start - at + to + |BEARER| <= |v|
    ensures Resume(v, start - at + to) == Resume(u, start) - at + to
  {
    SameTail(u, v, at, to);
    SeekMoves(u, v, at, to, start + |BEARER|, SpaceCommaSemicolonQuote);
  }

  lemma {:induction false} RunsOutMoves(u: string, at: nat, v: string, to: nat)
    requires at <= |u| && to <= |v| && u[at..] == v[to..]
    ensures RunsOut(u, at) == RunsOut(v, to)
    decreases |u| - at
  {
    hide Resume, MatchesAt;
    FindMoves(u, at, v, to, BEARER);
    SameTail(u, v, at, to);
    if FindFrom(u, BEARER, at).Some? {
      var start := FindFrom(u, BEARER, at).value;
      ResumeMoves(u, at, v, to, start);
      var next := Resume(u, start);
      if next <= |u| {
        TailsFrom(u, v, at, to, next);
        RunsOutMoves(u, next, v, next - at + to);
      }
    }
  }

  lemma RewriteBearerTail(text: string, start: nat)
    requires start + |BEARER| <= |text|
    ensures var next := RewriteBearer(text, start);
            && (next.from > |next.text| <==> Resume(text, start) > |text|)
            && (next.from <= |next.text| ==> next.text[next.from..] == text[Resume(text, start)..])
  {
    var token := start + |BEARER|;
    MarkParts(text, token, Seek(text, token, SpaceCommaSemicolonQuote));
  }

  /** The bearer pass panics on exactly these lines. */
  lemma {:induction false} PanicsIffRunsOut(text: string, from: nat)
    ensures RedactBearerFrom(text, from).None? <==> RunsOut(text, from)
    decreases |text| - from
  {
    hide RewriteBearer, Resume, MatchesAt;
    if from <= |text| && FindFrom(text, BEARER, from).Some? {
      var start := FindFrom(text, BEARER, from).value;
      var next := RewriteBearer(text, start);
      RewriteBearerTail(text, start);
      PanicsIffRunsOut(next.text, next.from);
      if next.from <= |next.text| {
        RunsOutMoves(next.text, next.from, text, Resume(text, start));
      }
    }
  }

  /**
   `redact_line` returns on exactly the lines for which the scan of the text that
   the key passes leave does not run out.
   */
  lemma ReturnsIff(line: string)
    ensures RedactLine(line).Some? <==> !RunsOut(RedactKeys(line, |SENSITIVE_KEYS|), 0)
  {
    PanicsIffRunsOut(RedactKeys(line, |SENSITIVE_KEYS|), 0);
  }
}
