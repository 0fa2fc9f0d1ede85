/**
 Bearer tokens and the whole line: which of those that the bearer pass leaves
 are still there behind the prefix passes, and which lines leave none.
 */
module RedactorBearerLine {
  import opened AsciiText
  import opened Redactor
  import opened RedactorSites
  import opened RedactorTheorems
  import opened RedactorLine
  import opened RedactorUtf8
  import opened RedactorBearers

  /** Neither the marker nor, where that is fine, nothing stands behind the `bearer ` at `s`. */
  predicate Unmarked(text: string, empty: bool, s: nat) {
    MatchesAt(text, s, BEARER) && !TokenOk(text, empty, s + |BEARER|)
  }

  /** The byte at `s` belongs to the token that starts at `p`. */
  predicate Covers(text: string, p: nat, s: nat) {
    p <= s < |text| && forall k :: p <= k <= s ==> !Stops(SpaceCommaSemicolonQuote, text[k])
  }

  /** The pass for `prefix` marks the token behind the `bearer ` at `s`, or replaces one that ends in that `bearer`. */
  ghost predicate Takes(text: string, prefix: string, s: nat) {
    || MatchesAt(text, s + |BEARER|, prefix)
    || exists p: nat :: MatchesAt(text, p, prefix) && Covers(text, p, s)
  }

  ghost predicate Remains(text: string, empty: bool, s: nat) {
    Unmarked(text, empty, s) && forall j: nat :: j < |TOKEN_PREFIXES| ==> !Takes(text, TOKEN_PREFIXES[j], s)
  }

  ghost predicate SomeRemain(text: string, empty: bool) {
    exists s: nat :: Remains(text, empty, s)
  }

  // ------------------------------------------------------------ left of a replaced token

  predicate IsPrefix(prefix: string) {
    IsNeedle(prefix) && Fold(prefix[0]) == 'g' && forall k :: 0 < k < |prefix| ==> Fold(prefix[k]) != 'g'
  }

  lemma PrefixIs(j: nat)
    requires j < |TOKEN_PREFIXES|
    ensures IsPrefix(TOKEN_PREFIXES[j]) && StartsToken(TOKEN_PREFIXES[j])
  {
    PrefixFacts(j);
  }

  lemma PrefixLeft(text: string, m: string, cut: nat, prefix: string, p: nat)
    requires IsPrefix(prefix) && OpensAt(text, m, cut) && cut < |text| && Fold(text[cut]) == 'g' && p < cut
    ensures MatchesAt(m, p, prefix) <==> MatchesAt(text, p, prefix)
  {
    if p + |prefix| <= cut {
      MatchLeft(text, m, cut, p, prefix);
    } else {
      NeedleStaysOut(prefix);
      NoMatchAcross(text, m, cut, p, prefix);
      if MatchesAt(text, p, prefix) {
        MatchByte(text, p, prefix, cut - p);
      }
    }
  }

  lemma CoversLeft(text: string, m: string, cut: nat, p: nat, s: nat)
    requires cut <= |text| && cut <= |m| && m[..cut] == text[..cut] && s < cut
    ensures Covers(m, p, s) <==> Covers(text, p, s)
  {
    forall k | p <= k <= s ensures m[k] == text[k] {
      assert m[..cut][k] == text[..cut][k];
    }
  }

  lemma TakesLeft(text: string, m: string, cut: nat, prefix: string, s: nat)
    requires IsPrefix(prefix) && OpensAt(text, m, cut) && cut < |text| && Fold(text[cut]) == 'g'
    requires s + |BEARER| < cut
    ensures Takes(m, prefix, s) <==> Takes(text, prefix, s)
  {
    PrefixLeft(text, m, cut, prefix, s + |BEARER|);
    forall p: nat | p <= s
      ensures MatchesAt(m, p, prefix) && Covers(m, p, s) <==> MatchesAt(text, p, prefix) && Covers(text, p, s)
    {
      PrefixLeft(text, m, cut, prefix, p);
      CoversLeft(text, m, cut, p, s);
    }
  }

  /** A token that reaches into the replaced one is not the marker, before or after. */
  lemma TokenReachesIn(text: string, m: string, cut: nat, empty: bool, token: nat)
    requires OpensAt(text, m, cut) && token < cut < |text| && Fold(text[cut]) == 'g'
    requires !Stops(SpaceCommaSemicolonQuote, text[cut]) && cut <= Seek(text, token, SpaceCommaSemicolonQuote)
    ensures !TokenOk(text, empty, token) && !TokenOk(m, empty, token)
  {
    var end := Seek(text, token, SpaceCommaSemicolonQuote);
    SeeksFirst(text, token, SpaceCommaSemicolonQuote);
    if end == token + |REDACTED| {
      assert text[token..end][cut - token] == text[cut];
      assert Fold(REDACTED[cut - token]) != 'g';
    }
    forall k | token <= k < cut + |REDACTED| ensures !Stops(SpaceCommaSemicolonQuote, m[k]) {
      if k < cut {
        assert m[..cut][k] == text[..cut][k];
      } else {
        assert m[cut..cut + |REDACTED|][k - cut] == m[k];
      }
    }
    SeeksFirst(m, token, SpaceCommaSemicolonQuote);
  }

  lemma UnmarkedLeft(text: string, m: string, cut: nat, empty: bool, s: nat)
    requires OpensAt(text, m, cut) && cut < |text| && Fold(text[cut]) == 'g'
    requires !Stops(SpaceCommaSemicolonQuote, text[cut]) && s + |BEARER| < cut
    ensures Unmarked(m, empty, s) <==> Unmarked(text, empty, s)
  {
    var token := s + |BEARER|;
    MatchLeft(text, m, cut, s, BEARER);
    hide MatchesAt, TokenOk;
    if Seek(text, token, SpaceCommaSemicolonQuote) < cut {
      AgreeBelow(text, m, cut, Seek(text, token, SpaceCommaSemicolonQuote));
      TokenAgrees(text, m, empty, token);
    } else {
      TokenReachesIn(text, m, cut, empty, token);
    }
  }

  lemma RemainsLeft(text: string, m: string, cut: nat, empty: bool, s: nat)
    requires OpensAt(text, m, cut) && cut < |text| && Fold(text[cut]) == 'g'
    requires !Stops(SpaceCommaSemicolonQuote, text[cut]) && s + |BEARER| < cut
    ensures Remains(m, empty, s) <==> Remains(text, empty, s)
  {
    hide Unmarked, Takes, OpensAt;
    UnmarkedLeft(text, m, cut, empty, s);
    forall j: nat | j < |TOKEN_PREFIXES| ensures Takes(m, TOKEN_PREFIXES[j], s) <==> Takes(text, TOKEN_PREFIXES[j], s) {
      PrefixIs(j);
      TakesLeft(text, m, cut, TOKEN_PREFIXES[j], s);
    }
  }

  // ------------------------------------------------------------ right of a replaced token

  lemma CoversMoves(u: string, at: nat, v: string, to: nat, p: nat, s: nat)
    requires at <= p && to <= |v| && at <= |u| && u[at..] == v[to..] && Covers(u, p, s)
    ensures Covers(v, p - at + to, s - at + to)
  {
    SameTail(u, v, at, to);
    forall k | p - at + to <= k <= s - at + to ensures !Stops(SpaceCommaSemicolonQuote, v[k]) {
      ByteMoves(u, v, at, to, k - to + at);
    }
  }

  /** No token reaches over the stop in between. */
  lemma TakesMoves(u: string, at: nat, v: string, to: nat, prefix: string, s: nat)
    requires at <= s && at < |u| && to <= |v| && u[at..] == v[to..] && Stops(SpaceCommaSemicolonQuote, u[at])
    requires Takes(u, prefix, s)
    ensures Takes(v, prefix, s - at + to)
  {
    hide MatchesAt;
    if MatchesAt(u, s + |BEARER|, prefix) {
      MatchEnds(u, s + |BEARER|, prefix);
      MatchMoves(u, v, at, to, s + |BEARER|, prefix);
    } else {
      var p: nat :| MatchesAt(u, p, prefix) && Covers(u, p, s);
      assert at <= p;
      MatchMoves(u, v, at, to, p, prefix);
      CoversMoves(u, at, v, to, p, s);
    }
  }

  lemma RemainsMoves(u: string, at: nat, v: string, to: nat, empty: bool, s: nat)
    requires at <= s && at < |u| && to < |v| && u[at..] == v[to..]
    requires Stops(SpaceCommaSemicolonQuote, u[at]) && Stops(SpaceCommaSemicolonQuote, v[to])
    requires Remains(u, empty, s)
    ensures Remains(v, empty, s - at + to)
  {
    hide Takes, TokenOk;
    var t := s - at + to;
    MatchMoves(u, v, at, to, s, BEARER);
    TokenMoves(u, at, v, to, empty, s + |BEARER|);
    forall j: nat | j < |TOKEN_PREFIXES| && Takes(v, TOKEN_PREFIXES[j], t) ensures false {
      TakesMoves(v, to, u, at, TOKEN_PREFIXES[j], t);
    }
  }

  // ------------------------------------------------------------ one iteration of a prefix pass

  /** The token from `cut` up to `end` starts with a prefix. */
  ghost predicate PrefixedToken(text: string, cut: nat, end: nat) {
    && cut < end <= |text| && Fold(text[cut]) == 'g' && Covers(text, cut, end - 1)
    && (end < |text| ==> Stops(SpaceCommaSemicolonQuote, text[end]))
  }

  lemma TokenIsPrefixed(text: string, prefix: string, start: nat)
    requires IsPrefix(prefix) && StartsToken(prefix) && MatchesAt(text, start, prefix)
    ensures PrefixedToken(text, start, Seek(text, start, SpaceCommaSemicolonQuote))
  {
    MatchByte(text, start, prefix, 0);
    SeeksFirst(text, start, SpaceCommaSemicolonQuote);
  }

  /** A `bearer ` that stays does not touch the token, and stands not directly before it. */
  lemma TokenIsApart(text: string, cut: nat, end: nat, j: nat, empty: bool, s: nat)
    requires PrefixedToken(text, cut, end) && j < |TOKEN_PREFIXES| && MatchesAt(text, cut, TOKEN_PREFIXES[j])
    requires Remains(text, empty, s)
    ensures s + |BEARER| < cut || end <= s
  {
    assert !Takes(text, TOKEN_PREFIXES[j], s);
    assert forall k :: 0 <= k < |BEARER| ==> Fold(BEARER[k]) != 'g';
    if s < cut < s + |BEARER| {
      MatchByte(text, s, BEARER, cut - s);
    }
    assert cut <= s < end ==> Covers(text, cut, s);
  }

  lemma RemainsForward(text: string, cut: nat, end: nat, j: nat, empty: bool, s: nat)
    requires PrefixedToken(text, cut, end) && j < |TOKEN_PREFIXES| && MatchesAt(text, cut, TOKEN_PREFIXES[j])
    requires Remains(text, empty, s)
    ensures SomeRemain(Mark(text, cut, end), empty)
  {
    var m := Mark(text, cut, end);
    TokenIsApart(text, cut, end, j, empty, s);
    MarkParts(text, cut, end);
    assert s < |text|;
    hide Remains, Mark, MatchesAt;
    if s + |BEARER| < cut {
      RemainsLeft(text, m, cut, empty, s);
    } else {
      StopBehindMarker(text, m, cut + |REDACTED|, end);
      RemainsMoves(text, end, m, cut + |REDACTED|, empty, s);
    }
  }

  lemma StopBehindMarker(text: string, m: string, from: nat, end: nat)
    requires end < |text| && from <= |m| && m[from..] == text[end..] && Stops(SpaceCommaSemicolonQuote, text[end])
    ensures from < |m| && Stops(SpaceCommaSemicolonQuote, m[from])
  {
    ByteMoves(text, m, end, from, end);
  }

  /** The replaced token reads back as exactly the marker. */
  lemma MarkerIsToken(text: string, m: string, cut: nat, end: nat, empty: bool)
    requires OpensAt(text, m, cut)
    requires cut + |REDACTED| < |m| ==> Stops(SpaceCommaSemicolonQuote, m[cut + |REDACTED|])
    ensures TokenOk(m, empty, cut)
  {
    forall k | cut <= k < cut + |REDACTED| ensures !Stops(SpaceCommaSemicolonQuote, m[k]) {
      assert m[cut..cut + |REDACTED|][k - cut] == m[k];
    }
    SeekIs(m, cut, SpaceCommaSemicolonQuote, cut + |REDACTED|);
  }

  lemma BearerStaysOut()
    ensures StaysOut(BEARER)
  {
  }

  lemma RemainsBack(text: string, cut: nat, end: nat, empty: bool, t: nat)
    requires PrefixedToken(text, cut, end) && Remains(Mark(text, cut, end), empty, t)
    ensures SomeRemain(text, empty)
  {
    var m := Mark(text, cut, end);
    MarkParts(text, cut, end);
    assert MatchesAt(m, t, BEARER) && t + |BEARER| <= |m|;
    assert !TokenOk(m, empty, t + |BEARER|);
    hide Remains, Mark, MatchesAt, TokenOk;
    if end < |text| {
      StopBehindMarker(text, m, cut + |REDACTED|, end);
    }
    if t + |BEARER| < cut {
      RemainsLeft(text, m, cut, empty, t);
    } else if t < cut + |REDACTED| {
      MarkerIsToken(text, m, cut, end, empty);
      BearerStaysOut();
      NoMatchAcross(text, m, cut, t, BEARER);
    } else {
      SameTail(m, text, cut + |REDACTED|, end);
      RemainsMoves(m, cut + |REDACTED|, text, end, empty, t);
    }
  }

  lemma MarkRemains(text: string, cut: nat, end: nat, j: nat, empty: bool)
    requires PrefixedToken(text, cut, end) && j < |TOKEN_PREFIXES| && MatchesAt(text, cut, TOKEN_PREFIXES[j])
    ensures SomeRemain(Mark(text, cut, end), empty) <==> SomeRemain(text, empty)
  {
    hide Remains, Mark;
    if SomeRemain(text, empty) {
      var s: nat :| Remains(text, empty, s);
      RemainsForward(text, cut, end, j, empty, s);
    }
    if SomeRemain(Mark(text, cut, end), empty) {
      var t: nat :| Remains(Mark(text, cut, end), empty, t);
      RemainsBack(text, cut, end, empty, t);
    }
  }

  // ------------------------------------------------------------ the prefix passes

  lemma {:induction false} PassRemains(text: string, j: nat, from: nat, empty: bool)
    requires j < |TOKEN_PREFIXES| && from <= |text|
    ensures StartsToken(TOKEN_PREFIXES[j])
    ensures SomeRemain(RedactPrefixFrom(text, TOKEN_PREFIXES[j], from), empty) <==> SomeRemain(text, empty)
    decreases |text| - from
  {
    var prefix := TOKEN_PREFIXES[j];
    PrefixIs(j);
    FindsFirst(text, prefix, from);
    if FindFrom(text, prefix, from).Some? {
      var start := FindFrom(text, prefix, from).value;
      var next := RewritePrefix(text, prefix, start);
      TokenIsPrefixed(text, prefix, start);
      MarkRemains(text, start, Seek(text, start, SpaceCommaSemicolonQuote), j, empty);
      hide Mark, SomeRemain, MatchesAt, IsPrefix, StartsToken;
      PassRemains(next.text, j, next.from, empty);
    }
  }

  lemma {:induction false} PassesRemain(text: string, n: nat, empty: bool)
    requires n <= |TOKEN_PREFIXES|
    ensures SomeRemain(RedactPrefixes(text, n), empty) <==> SomeRemain(text, empty)
    decreases n
  {
    hide SomeRemain, RedactPrefixFrom, StartsToken;
    if n > 0 {
      PassesRemain(text, n - 1, empty);
      PassRemains(RedactPrefixes(text, n - 1), n - 1, 0, empty);
    }
  }

  lemma FreeRemains(text: string, empty: bool)
    requires forall j: nat :: j < |TOKEN_PREFIXES| ==> Free(text, TOKEN_PREFIXES[j])
    ensures SomeRemain(text, empty) <==> !BearersOk(text, empty, 0)
  {
    hide TokenOk;
    if !BearersOk(text, empty, 0) {
      var s: nat :| MatchesAt(text, s, BEARER) && !TokenOk(text, empty, s + |BEARER|);
      assert Remains(text, empty, s);
    }
  }

  // ------------------------------------------------------------ the whole line

  /** A token behind a `bearer ` that the bearer pass leaves and no prefix pass takes. */
  ghost predicate BearerRemains(line: string, empty: bool) {
    var keyed := RedactKeys(line, |SENSITIVE_KEYS|);
    RedactBearerFrom(keyed, 0).Some? && SomeRemain(RedactBearerFrom(keyed, 0).value, empty)
  }

  /**
   Exactly when some `bearer ` of the redacted line is followed by something else
   than the marker (or than nothing, where that is fine): the bearer pass left a
   token there, and no prefix pass takes it. It leaves none on the lines of
   `ScanOk`, read as they come from the key passes.
   */
  lemma BearerRemainsIff(line: string, empty: bool)
    requires RedactLine(line).Some?
    ensures !BearersOk(RedactLine(line).value, empty, 0) <==> BearerRemains(line, empty)
    ensures BearerRemains(line, empty) ==> !ScanOk(RedactKeys(line, |SENSITIVE_KEYS|), empty, 0)
  {
    var keyed := RedactKeys(line, |SENSITIVE_KEYS|);
    var swept := RedactBearerFrom(keyed, 0).value;
    hide RedactKeys, SomeRemain, BearersOk, Free;
    forall j: nat | j < |TOKEN_PREFIXES| ensures Free(RedactLine(line).value, TOKEN_PREFIXES[j]) {
      PrefixesFree(swept, |TOKEN_PREFIXES|, j);
    }
    hide RedactPrefixes;
    PassesRemain(swept, |TOKEN_PREFIXES|, empty);
    FreeRemains(RedactLine(line).value, empty);
    ScanIff(keyed, empty, 0);
    if SomeRemain(swept, empty) {
      RemainsIsNotOk(swept, empty);
    }
  }

  lemma RemainsIsNotOk(text: string, empty: bool)
    requires SomeRemain(text, empty)
    ensures !BearersOk(text, empty, 0)
  {
    hide TokenOk, MatchesAt;
    var s: nat :| Remains(text, empty, s);
  }

  // ------------------------------------------------------------ lines of which every token is marked

  /** A token stands behind every `bearer ` from byte `from` on. */
  ghost predicate BearersFilled(text: string, from: nat) {
    forall s: nat :: from <= s && MatchesAt(text, s, BEARER) ==>
      s + |BEARER| < Seek(text, s + |BEARER|, SpaceCommaSemicolonQuote)
  }

  lemma {:induction false} FilledScans(text: string, from: nat)
    requires from <= |text| && BearersFilled(text, from)
    ensures ScanOk(text, false, from)
    decreases |text| - from
  {
    FindsFirst(text, BEARER, from);
    if FindFrom(text, BEARER, from).Some? {
      FilledScans(text, Resume(text, FindFrom(text, BEARER, from).value));
    }
  }

  lemma FilledLeft(text: string, m: string, cut: nat, s: nat)
    requires OpensAt(text, m, cut) && BearersFilled(text, 0)
    requires s + |BEARER| <= cut && MatchesAt(m, s, BEARER)
    ensures s + |BEARER| < Seek(m, s + |BEARER|, SpaceCommaSemicolonQuote)
  {
    var token := s + |BEARER|;
    MatchLeft(text, m, cut, s, BEARER);
    OpensWithBracket(text, m, cut);
    SeeksFirst(text, token, SpaceCommaSemicolonQuote);
    if token < cut {
      assert m[..cut][token] == text[..cut][token];
    }
    SeeksFirst(m, token, SpaceCommaSemicolonQuote);
  }

  lemma FilledRight(text: string, m: string, from: nat, end: nat, s: nat)
    requires end <= |text| && from <= |m| && m[from..] == text[end..] && BearersFilled(text, 0)
    requires from <= s && MatchesAt(m, s, BEARER)
    ensures s + |BEARER| < Seek(m, s + |BEARER|, SpaceCommaSemicolonQuote)
  {
    SameTail(m, text, from, end);
    MatchMoves(m, text, from, end, s, BEARER);
    SeekMoves(m, text, from, end, s + |BEARER|, SpaceCommaSemicolonQuote);
  }

  /** No rewrite takes the token away from a `bearer `. */
  lemma MarkKeepsFilled(text: string, cut: nat, end: nat)
    requires cut <= end <= |text| && BearersFilled(text, 0)
    ensures BearersFilled(Mark(text, cut, end), 0)
  {
    var m := Mark(text, cut, end);
    forall s: nat | MatchesAt(m, s, BEARER) ensures s + |BEARER| < Seek(m, s + |BEARER|, SpaceCommaSemicolonQuote) {
      MarkParts(text, cut, end);
      BearerStaysOut();
      hide Mark, BearersFilled, MatchesAt, StaysOut;
      if s + |BEARER| <= cut {
        FilledLeft(text, m, cut, s);
      } else if s < cut + |REDACTED| {
        NoMatchAcross(text, m, cut, s, BEARER);
      } else {
        FilledRight(text, m, cut + |REDACTED|, end, s);
      }
    }
  }

  lemma {:induction false} KeyPassKeepsFilled(text: string, key: string, from: nat)
    requires |key| > 0 && from <= |text| && BearersFilled(text, 0)
    ensures BearersFilled(RedactAssignmentFrom(text, key, from), 0)
    decreases |text| - from
  {
    if FindFrom(text, key, from).Some? {
      var start := FindFrom(text, key, from).value;
      var next, site := RewriteSite(text, key, start), SiteAt(text, key, start);
      if NeedsMark(site) {
        MarkKeepsFilled(text, site.cursor, site.end);
      }
      hide SiteAt, BearersFilled, Mark;
      KeyPassKeepsFilled(next.text, key, next.from);
    }
  }

  lemma {:induction false} KeysKeepFilled(line: string, n: nat)
    requires n <= |SENSITIVE_KEYS| && BearersFilled(line, 0)
    ensures BearersFilled(RedactKeys(line, n), 0)
    decreases n
  {
    hide BearersFilled, RedactAssignmentFrom;
    if n > 0 {
      KeysKeepFilled(line, n - 1);
      KeyPassKeepsFilled(RedactKeys(line, n - 1), SENSITIVE_KEYS[n - 1], 0);
    }
  }

  /**
   A line on which a token stands behind every `bearer ` is redacted without a
   panic, and behind every `bearer ` of the result stands exactly the marker.
   */
  lemma FilledLineIsMarked(line: string)
    requires BearersFilled(line, 0)
    ensures RedactLine(line).Some? && BearersOk(RedactLine(line).value, false, 0)
  {
    hide BearersFilled, BearersOk, ScanOk, RedactKeys, RedactPrefixes, SomeRemain;
    var keyed := RedactKeys(line, |SENSITIVE_KEYS|);
    KeysKeepFilled(line, |SENSITIVE_KEYS|);
    FilledScans(keyed, 0);
    ScanIff(keyed, false, 0);
    BearerRemainsIff(line, false);
  }
}
