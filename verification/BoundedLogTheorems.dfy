/**
 What every accepted log line looks like: within the limits, one line of valid
 text, and as free of secrets as redaction left it, although it was cut
 afterwards. Only a bearer token may appear that was none when the line was
 redacted: where a line break stood directly behind `bearer`.
 */
module BoundedLogTheorems {
  import opened Wrappers
  import opened AsciiText
  import opened Utf8
  import opened Redactor
  import opened RedactorSites
  import opened RedactorTheorems
  import opened RedactorLine
  import opened RedactorUtf8
  import opened RedactorBearers
  import opened RedactorBearerLine
  import opened BoundedLog

  // ------------------------------------------------------------ shape

  /** An accepted message is a prefix of the redacted line with its line breaks collapsed. */
  lemma KeptIsPrefix(log: DeploymentLog, bounds: LogBounds, sent: nat)
    requires BoundLog(log, bounds, sent).Kept?
    ensures RedactLine(log.message).Some?
    ensures BoundLog(log, bounds, sent).log.message <= CollapseBreaks(RedactLine(log.message).value)
  {
  }

  /** The limits of the policy hold, and the message is one non-empty line. */
  lemma KeptIsWithinLimits(log: DeploymentLog, bounds: LogBounds, sent: nat)
    requires BoundLog(log, bounds, sent).Kept?
    ensures var kept := BoundLog(log, bounds, sent).log;
            && kept.stream == log.stream && kept.recordedAt == log.recordedAt
            && kept.message != []
            && (bounds.maxLineLength.Some? ==> |kept.message| <= bounds.maxLineLength.value)
            && (bounds.maxTotalBytes.Some? ==> sent + |kept.message| <= bounds.maxTotalBytes.value)
            && '\r' !in kept.message && '\n' !in kept.message
  {
    KeptIsPrefix(log, bounds, sent);
    var kept := BoundLog(log, bounds, sent).log.message;
    var line := CollapseBreaks(RedactLine(log.message).value);
    forall c | c in kept ensures c != '\r' && c != '\n' {
      var k :| 0 <= k < |kept| && kept[k] == c;
      assert kept == line[..|kept|];
      assert line[k] == c;
    }
  }

  // ------------------------------------------------------------ valid text

  lemma {:induction false} CollapseKeepsValid(s: string)
    requires Valid(s)
    ensures Valid(CollapseBreaks(s))
    decreases |s|
  {
    if s != [] {
      var n, c := CharLength(s), CollapseBreaks(s);
      CollapseKeepsValid(s[n..]);
      assert c[n..] == CollapseBreaks(s[n..]);
      CollapseKeepsChar(s, n);
    }
  }

  lemma CollapseKeepsChar(s: string, n: nat)
    requires n == CharLength(s)
    ensures CharLength(CollapseBreaks(s)) == n
  {
  }

  /** Trimming takes whole characters. */
  lemma {:induction false} TrimKeepsValid(s: string)
    requires Valid(s)
    ensures Valid(TrimEnd(s))
    decreases |s|
  {
    var n := TrailingSpace(s);
    if n > 0 {
      SplitsAtBoundary(s, |s| - n);
      TrimKeepsValid(s[..|s| - n]);
    }
  }

  lemma KeptIsValid(log: DeploymentLog, bounds: LogBounds, sent: nat)
    requires Valid(log.message) && BoundLog(log, bounds, sent).Kept?
    ensures Valid(BoundLog(log, bounds, sent).log.message)
  {
    LineStaysValid(log.message);
    var redacted := RedactLine(log.message).value;
    CollapseKeepsValid(redacted);
    TrimKeepsValid(CollapseBreaks(redacted));
    var sanitised := SanitiseLine(redacted);
    TruncationKeepsValid(sanitised, bounds.maxLineLength);
    var rest := if bounds.maxTotalBytes.Some? then Some(bounds.maxTotalBytes.value - sent) else None;
    TruncationKeepsValid(Truncated(sanitised, bounds.maxLineLength), rest);
  }

  lemma TruncationKeepsValid(s: string, maximum: Option<nat>)
    requires Valid(s)
    ensures Valid(Truncated(s, maximum))
  {
    if maximum.Some? {
      TruncatedIsLongest(s, maximum.value);
    }
  }

  // ------------------------------------------------------------ still no secrets

  /** Like `ValueOk`, where the line may also have been cut inside the marker. */
  predicate CutValueOk(text: string, tail: bool, site: Site)
    requires site.Assigned? ==> site.cursor <= site.end <= |text|
  {
    || ValueOk(text, tail, site)
    || (site.Assigned? && site.end == |text| && text[site.cursor..site.end] <= REDACTED)
  }

  ghost predicate CleanWhenCut(text: string, key: string, tail: bool) {
    forall s: nat :: MatchesAt(text, s, key) ==> CutValueOk(text, tail, SiteAt(text, key, s))
  }

  lemma CollapsedSeek(text: string, from: nat, stop: Stop)
    requires from <= |text| && (stop.Exactly? ==> IsQuote(stop.c))
    ensures Seek(CollapseBreaks(text), from, stop) == Seek(text, from, stop)
  {
    SeeksFirst(text, from, stop);
    SeekIs(CollapseBreaks(text), from, stop, Seek(text, from, stop));
  }

  lemma CollapsedMatch(text: string, s: nat, needle: string)
    requires IsNeedle(needle)
    ensures MatchesAt(CollapseBreaks(text), s, needle) <==> MatchesAt(text, s, needle)
  {
    var c := CollapseBreaks(text);
    if s + |needle| <= |text| {
      forall k | 0 <= k < |needle|
        ensures Fold(c[s + k]) == Fold(needle[k]) <==> Fold(text[s + k]) == Fold(needle[k])
      {
        assert IsWordByte(needle[k]);
      }
    }
  }

  /** A cleaned value does not start with `bearer `, before or after line breaks became spaces. */
  lemma CleanedIsNotBearer(text: string, key: string, tail: bool, s: nat)
    requires |key| > 0 && s + |key| <= |text| && SiteOk(text, key, tail, s) && SiteAt(text, key, s).Assigned?
    ensures !MatchesAt(text, SiteAt(text, key, s).cursor, BEARER)
    ensures !MatchesAt(CollapseBreaks(text), SiteAt(text, key, s).cursor, BEARER)
  {
    var site := SiteAt(text, key, s);
    var c := CollapseBreaks(text);
    if site.cursor == site.end {
      ValueEndsOutsideWords(text, key, s);
      assert site.cursor < |text| ==> Fold(c[site.cursor + 0]) != Fold(BEARER[0]);
      assert site.cursor < |text| ==> Fold(text[site.cursor + 0]) != Fold(BEARER[0]);
    } else {
      ValueBytes(text, tail, site);
      assert text[site.cursor] == REDACTED[site.cursor - site.cursor];
      assert Fold(c[site.cursor + 0]) != Fold(BEARER[0]);
      assert Fold(text[site.cursor + 0]) != Fold(BEARER[0]);
    }
  }

  lemma CollapsedValue(text: string, key: string, separator: nat)
    requires separator < |text|
    requires var cursor := ValueBehind(text, key, separator).cursor;
             !MatchesAt(text, cursor, BEARER) && !MatchesAt(CollapseBreaks(text), cursor, BEARER)
    ensures ValueBehind(CollapseBreaks(text), key, separator) == ValueBehind(text, key, separator)
  {
    hide MatchesAt;
    CollapsedSeek(text, separator + 1, NotSpace);
    var (open, quote) := OpeningQuote(text, separator);
    assert OpeningQuote(CollapseBreaks(text), separator) == (open, quote);
    CollapsedSeek(text, if quote.Some? then open + 1 else open,
                  if quote.Some? then Exactly(quote.value) else SpaceCommaSemicolon);
  }

  lemma CollapsedSite(text: string, key: string, tail: bool, s: nat)
    requires IsKey(key) && s + |key| <= |text| && SiteOk(text, key, tail, s)
    ensures SiteOk(CollapseBreaks(text), key, tail, s)
  {
    hide Seek;
    var site := SiteAt(text, key, s);
    CollapsedSeek(text, s + |key|, NotSpaceOrQuote);
    if site.Assigned? {
      CleanedIsNotBearer(text, key, tail, s);
      hide MatchesAt, IsKey;
      CollapsedValue(text, key, site.separator);
      hide ValueBehind;
      CollapsedMarker(text, tail, site);
    }
  }

  lemma CollapsedMarker(text: string, tail: bool, site: Site)
    requires site.Assigned? && site.cursor <= site.end <= |text| && ValueOk(text, tail, site)
    ensures ValueOk(CollapseBreaks(text), tail, site)
  {
    var c := CollapseBreaks(text);
    if site.cursor < site.end {
      ValueBytes(text, tail, site);
      var p := site.cursor + |REDACTED|;
      forall k | 0 <= k < |REDACTED| ensures c[site.cursor..p][k] == REDACTED[k] {
        assert text[site.cursor + k] == REDACTED[site.cursor + k - site.cursor];
      }
      assert c[site.cursor..p] == REDACTED;
    }
  }

  lemma CollapseKeepsClean(text: string, key: string, tail: bool)
    requires IsKey(key) && Clean(text, key, tail, 0)
    ensures Clean(CollapseBreaks(text), key, tail, 0)
  {
    var c := CollapseBreaks(text);
    forall s: nat | MatchesAt(c, s, key) ensures SiteOk(c, key, tail, s) {
      CollapsedMatch(text, s, key);
      CollapsedSite(text, key, tail, s);
    }
  }

  // ------------------------------------------------------------ line breaks behind `bearer`

  const BEARER_WORD := "bearer"
  const BEARER_RETURN := "bearer\r"
  const BEARER_FEED := "bearer\n"

  predicate BreakMatch(text: string, s: nat) {
    MatchesAt(text, s, BEARER_RETURN) || MatchesAt(text, s, BEARER_FEED)
  }

  ghost predicate BreakFree(text: string) {
    Free(text, BEARER_RETURN) && Free(text, BEARER_FEED)
  }

  /** A line break stands directly behind a `bearer`, and behind that neither the marker nor nothing. */
  ghost predicate BreakBears(text: string) {
    exists s: nat :: BreakMatch(text, s) && !TokenOk(text, true, s + |BEARER|)
  }

  lemma MatchesWord(text: string, s: nat, needle: string, last: char)
    requires needle == BEARER_WORD + [last] && (last == ' ' || last == '\r' || last == '\n')
    ensures MatchesAt(text, s, needle) <==>
              MatchesAt(text, s, BEARER_WORD) && s + |BEARER_WORD| < |text| && text[s + |BEARER_WORD|] == last
  {
    var n := |BEARER_WORD|;
    assert forall k :: 0 <= k < n ==> needle[k] == BEARER_WORD[k];
    if MatchesAt(text, s, needle) {
      MatchByte(text, s, needle, n);
      forall k | 0 <= k < n ensures Fold(text[s + k]) == Fold(BEARER_WORD[k]) {
        MatchByte(text, s, needle, k);
      }
    }
  }

  /** Collapsing makes a `bearer ` exactly where one was, or a line break behind a `bearer`. */
  lemma CollapsedBearer(text: string, s: nat)
    ensures MatchesAt(CollapseBreaks(text), s, BEARER) <==> MatchesAt(text, s, BEARER) || BreakMatch(text, s)
  {
    CollapsedMatch(text, s, BEARER_WORD);
    MatchesWord(CollapseBreaks(text), s, BEARER, ' ');
    MatchesWord(text, s, BEARER, ' ');
    MatchesWord(text, s, BEARER_RETURN, '\r');
    MatchesWord(text, s, BEARER_FEED, '\n');
    hide MatchesAt;
  }

  lemma CollapsedToken(text: string, empty: bool, token: nat)
    requires token <= |text|
    ensures TokenOk(CollapseBreaks(text), empty, token) == TokenOk(text, empty, token)
  {
    var c, end := CollapseBreaks(text), Seek(text, token, SpaceCommaSemicolonQuote);
    CollapsedSeek(text, token, SpaceCommaSemicolonQuote);
    SeeksFirst(text, token, SpaceCommaSemicolonQuote);
    forall k | token <= k < end ensures c[k] == text[k] {
      assert !Stops(SpaceCommaSemicolonQuote, text[k]);
    }
    assert c[token..end] == text[token..end];
  }

  lemma CollapseBearsIff(text: string)
    ensures !BearersOk(CollapseBreaks(text), true, 0) <==> !BearersOk(text, true, 0) || BreakBears(text)
  {
    var c := CollapseBreaks(text);
    forall s: nat
      ensures MatchesAt(c, s, BEARER) <==> MatchesAt(text, s, BEARER) || BreakMatch(text, s)
      ensures MatchesAt(c, s, BEARER) ==> TokenOk(c, true, s + |BEARER|) == TokenOk(text, true, s + |BEARER|)
    {
      CollapsedBearer(text, s);
      if s + |BEARER| <= |text| {
        CollapsedToken(text, true, s + |BEARER|);
      }
    }
    hide TokenOk;
  }

  /** The redacted line, with its line breaks collapsed, holds a bearer token. */
  ghost predicate Bears(line: string) {
    RedactLine(line).Some? && (BearerRemains(line, true) || BreakBears(RedactLine(line).value))
  }

  /**
   Exactly when a bearer token is left once the line breaks are collapsed:
   redaction left one, or there was a line break directly behind a `bearer` and a
   token behind that. Neither happens on a line without such a line break on
   which the scan of the bearer pass skips no token.
   */
  lemma BearsIff(line: string)
    requires RedactLine(line).Some?
    ensures Bears(line) <==> !BearersOk(CollapseBreaks(RedactLine(line).value), true, 0)
    ensures Bears(line) ==> !ScanOk(RedactKeys(line, |SENSITIVE_KEYS|), true, 0) || !BreakFree(line)
  {
    var redacted := RedactLine(line).value;
    BearerRemainsIff(line, true);
    CollapseBearsIff(redacted);
    hide RedactLine, RedactKeys, BearersOk, BearerRemains, ScanOk, BreakBears, BreakFree;
    if BreakFree(line) {
      NoBreakBears(line);
    }
  }

  lemma NoBreakBears(line: string)
    requires RedactLine(line).Some? && BreakFree(line)
    ensures !BreakBears(RedactLine(line).value)
  {
    hide RedactLine, TokenOk, MatchesAt, StaysOut;
    BreaksStayOut();
    LineKeepsFree(line, BEARER_RETURN);
    LineKeepsFree(line, BEARER_FEED);
  }

  /** On a line with a token behind every `bearer `, and no line break behind `bearer`, none is left. */
  lemma FilledLineBearsNothing(line: string)
    requires BearersFilled(line, 0) && BreakFree(line)
    ensures RedactLine(line).Some? && !Bears(line)
  {
    FilledLineIsMarked(line);
    BearerRemainsIff(line, true);
    MarkedIsOk(RedactLine(line).value);
    NoBreakBears(line);
    hide RedactLine, BearerRemains, BreakBears, BearersOk, ScanOk;
  }

  lemma MarkedIsOk(text: string)
    requires BearersOk(text, false, 0)
    ensures BearersOk(text, true, 0)
  {
    forall s: nat | MatchesAt(text, s, BEARER) ensures TokenOk(text, true, s + |BEARER|) {
      assert TokenOk(text, false, s + |BEARER|);
    }
  }

  lemma BreaksStayOut()
    ensures StaysOut(BEARER_RETURN) && StaysOut(BEARER_FEED)
  {
  }

  // ------------------------------------------------------------ cutting a cleaned line

  lemma CutSeek(text: string, t: string, from: nat, stop: Stop)
    requires t <= text && from <= |t|
    ensures var p := Seek(text, from, stop);
            Seek(t, from, stop) == if p < |t| then p else |t|
  {
    SeeksFirst(text, from, stop);
    var p := Seek(text, from, stop);
    SeekIs(t, from, stop, if p < |t| then p else |t|);
  }

  lemma CutValueEnd(text: string, t: string, key: string, quote: Option<char>, cursor: nat)
    requires t <= text && cursor <= |t| <= ValueEnd(text, key, quote, cursor)
    requires !MatchesAt(text, cursor, BEARER)
    ensures ValueEnd(t, key, quote, cursor) == |t|
  {
    if MatchesAt(t, cursor, BEARER) {
      CutMatch(text, t, cursor, BEARER);
    }
    CutSeek(text, t, cursor, if quote.Some? then Exactly(quote.value) else SpaceCommaSemicolon);
  }

  lemma CutMarker(text: string, t: string, tail: bool, site: Site)
    requires t <= text && site.Assigned? && site.cursor <= |t| <= site.end <= |text|
    requires ValueOk(text, tail, site)
    ensures CutValueOk(t, tail, Assigned(site.separator, site.cursor, |t|))
  {
    var c := site.cursor;
    if c < |t| {
      ValueBytes(text, tail, site);
      var p := if |t| < c + |REDACTED| then |t| else c + |REDACTED|;
      assert t[c..p] == REDACTED[..p - c];
    }
  }

  /** The line was cut inside the value of `site`, or before it. */
  lemma CutValue(text: string, t: string, key: string, tail: bool, site: Site)
    requires t <= text && site.Assigned? && site.separator < |t| <= site.end <= |text|
    requires ValueBehind(text, key, site.separator) == site && ValueOk(text, tail, site)
    requires !MatchesAt(text, site.cursor, BEARER)
    ensures CutValueOk(t, tail, ValueBehind(t, key, site.separator))
  {
    hide MatchesAt, ValueOk, CutValueOk;
    var (open, quote) := OpeningQuote(text, site.separator);
    CutSeek(text, t, site.separator + 1, NotSpace);
    if |t| <= open {
      NoValueAtEnd(t, key, tail, site.separator);
    } else {
      CutValueEnd(text, t, key, quote, site.cursor);
      CutMarker(text, t, tail, site);
    }
  }

  lemma NoValueAtEnd(t: string, key: string, tail: bool, separator: nat)
    requires separator < |t| && Seek(t, separator + 1, NotSpace) == |t|
    ensures CutValueOk(t, tail, ValueBehind(t, key, separator))
  {
  }

  lemma CutSite(text: string, t: string, key: string, tail: bool, s: nat)
    requires |key| > 0 && t <= text && s + |key| <= |t| && SiteOk(text, key, tail, s)
    ensures CutValueOk(t, tail, SiteAt(t, key, s))
  {
    hide Seek, MatchesAt;
    var site := SiteAt(text, key, s);
    CutSeek(text, t, s + |key|, NotSpaceOrQuote);
    if site.Assigned? && site.separator < |t| {
      CleanedIsNotBearer(text, key, tail, s);
      hide ValueBehind, ValueOk, CutValueOk;
      if site.end < |t| {
        CutBehindValue(text, t, key, tail, site);
      } else {
        CutValue(text, t, key, tail, site);
      }
    }
  }

  lemma CutBehindValue(text: string, t: string, key: string, tail: bool, site: Site)
    requires t <= text && site.Assigned? && site.separator < site.cursor <= site.end < |t|
    requires ValueBehind(text, key, site.separator) == site && ValueOk(text, tail, site)
    ensures CutValueOk(t, tail, ValueBehind(t, key, site.separator))
  {
    assert text[..site.end] == t[..site.end];
    ValueKept(text, t, key, site.separator);
    hide ValueBehind;
    assert text[..|t|] == t[..|t|];
    SameValue(text, t, |t|, site);
  }

  lemma CutMatch(text: string, t: string, s: nat, needle: string)
    requires t <= text && MatchesAt(t, s, needle)
    ensures MatchesAt(text, s, needle)
  {
    forall k | 0 <= k < |needle| ensures Fold(text[s + k]) == Fold(needle[k]) {
      assert Fold(t[s + k]) == Fold(needle[k]);
    }
  }

  lemma CutStaysClean(text: string, t: string, key: string, tail: bool)
    requires IsKey(key) && t <= text && Clean(text, key, tail, 0)
    ensures CleanWhenCut(t, key, tail)
  {
    forall s: nat | MatchesAt(t, s, key) ensures CutValueOk(t, tail, SiteAt(t, key, s)) {
      CutMatch(text, t, s, key);
      CutSite(text, t, key, tail, s);
    }
  }

  /** Like `TokenOk`, where the line may also have been cut inside the marker. */
  predicate CutTokenOk(text: string, token: nat)
    requires token <= |text|
  {
    || TokenOk(text, true, token)
    || (Seek(text, token, SpaceCommaSemicolonQuote) == |text| && text[token..] <= REDACTED)
  }

  ghost predicate BearersWhenCut(text: string) {
    forall s: nat :: MatchesAt(text, s, BEARER) ==> CutTokenOk(text, s + |BEARER|)
  }

  lemma CutToken(text: string, t: string, token: nat)
    requires t <= text && token <= |t| && TokenOk(text, true, token)
    ensures CutTokenOk(t, token)
  {
    var end := Seek(text, token, SpaceCommaSemicolonQuote);
    CutSeek(text, t, token, SpaceCommaSemicolonQuote);
    assert text[..|t|] == t;
    if end < |t| {
      SameSlice(text, t, |t|, token, end);
    } else {
      assert t[token..] == text[token..end][..|t| - token];
    }
  }

  lemma CutBearers(text: string, t: string)
    requires t <= text && BearersOk(text, true, 0)
    ensures BearersWhenCut(t)
  {
    hide TokenOk, CutTokenOk;
    forall s: nat | MatchesAt(t, s, BEARER) ensures CutTokenOk(t, s + |BEARER|) {
      CutMatch(text, t, s, BEARER);
      CutToken(text, t, s + |BEARER|);
    }
  }

  lemma CutStaysFree(text: string, t: string, needle: string)
    requires IsNeedle(needle) && t <= CollapseBreaks(text) && Free(text, needle)
    ensures Free(t, needle)
  {
    forall s: nat ensures !MatchesAt(t, s, needle) {
      if MatchesAt(t, s, needle) {
        CutMatch(CollapseBreaks(text), t, s, needle);
        CollapsedMatch(text, s, needle);
      }
    }
  }

  /**
   What is accepted of a line: behind every occurrence of a sensitive key, the
   value is empty, the marker, or the part of the marker that was left when the
   line was cut, and no token prefix occurs in any letter case. Only an
   `authorization` value may carry something behind its marker, and only if
   `Trails` says so of the logged line. Behind every `bearer ` as well stands
   nothing, the marker or what a cut left of it, unless `Bears` says so.
   */
  lemma NoSecretIsQueued(log: DeploymentLog, bounds: LogBounds, sent: nat)
    requires BoundLog(log, bounds, sent).Kept?
    ensures var message := BoundLog(log, bounds, sent).log.message;
            && (forall i: nat :: i < |SENSITIVE_KEYS| ==>
                  CleanWhenCut(message, SENSITIVE_KEYS[i], Trails(log.message, i)))
            && (forall j: nat :: j < |TOKEN_PREFIXES| ==> Free(message, TOKEN_PREFIXES[j]))
            && (Bears(log.message) || BearersWhenCut(message))
  {
    hide Clean, CleanWhenCut, Free, Bears, BearersWhenCut, BearersOk;
    KeptIsPrefix(log, bounds, sent);
    NoSecretSurvives(log.message);
    var redacted, message := RedactLine(log.message).value, BoundLog(log, bounds, sent).log.message;
    hide BoundLog, RedactLine;
    forall i: nat | i < |SENSITIVE_KEYS| ensures CleanWhenCut(message, SENSITIVE_KEYS[i], Trails(log.message, i)) {
      KeyFacts(i);
      CollapseKeepsClean(redacted, SENSITIVE_KEYS[i], Trails(log.message, i));
      CutStaysClean(CollapseBreaks(redacted), message, SENSITIVE_KEYS[i], Trails(log.message, i));
    }
    forall j: nat | j < |TOKEN_PREFIXES| ensures Free(message, TOKEN_PREFIXES[j]) {
      PrefixFacts(j);
      CutStaysFree(redacted, message, TOKEN_PREFIXES[j]);
    }
    BearsIff(log.message);
    if !Bears(log.message) {
      CutBearers(CollapseBreaks(redacted), message);
    }
  }
}
