/**
 When a second assignment pass changes nothing. For nine keys that is always;
 for `authorization` it depends on the byte behind each bearer token, because a
 token ends at a quote and a plain value may not.
 */
module RedactorTwice {
  import opened Wrappers
  import opened AsciiText
  import opened Redactor
  import opened RedactorSites
  import opened RedactorTheorems

  // ------------------------------------------------------------ the condition on the line

  /** What ends a value that is not a bearer token. */
  function PlainStop(quote: Option<char>): (stop: Stop) {
    if quote.Some? then Exactly(quote.value) else SpaceCommaSemicolon
  }

  /** The value behind the match, if it is replaced, ends where a plain value would end, too. */
  predicate EndsPlainly(text: string, key: string, start: nat)
    requires start + |key| <= |text|
  {
    match SiteAt(text, key, start)
    case Plain => true
    case Assigned(separator, cursor, end) =>
      end == cursor || end == |text| || Stops(PlainStop(OpeningQuote(text, separator).1), text[end])
  }

  /** The same for every value the pass comes to, reading the line as it is. */
  predicate AllEndPlainly(text: string, key: string, from: nat)
    requires from <= |text| && |key| > 0
    decreases |text| - from
  {
    match FindFrom(text, key, from)
    case None => true
    case Some(start) =>
      EndsPlainly(text, key, start) && AllEndPlainly(text, key, CopySite(text, key, from, start).1)
  }

  // ------------------------------------------------------------ what a second pass finds

  /** The end of a value that was replaced: where a plain value ends, looking from behind the marker. */
  lemma MarkedEnd(text: string, r: string, key: string, start: nat)
    requires |key| > 0 && start + |key| <= |text| && NeedsMark(SiteAt(text, key, start))
    requires Marked(text, r, SiteAt(text, key, start))
    ensures start + |key| <= |r|
    ensures var site, now := SiteAt(text, key, start), SiteAt(r, key, start);
            && now.Assigned? && now.cursor == site.cursor
            && now.end == Seek(r, site.cursor + |REDACTED|, PlainStop(OpeningQuote(text, site.separator).1))
  {
    hide MatchesAt, Seek, ValueEnd, SiteAt, Marked, OpeningQuote;
    var site := SiteAt(text, key, start);
    SiteIsValue(text, key, start);
    MarkedSite(text, r, key, start);
    MarkedQuote(text, r, key, site.separator);
    MarkerIsOneValue(text, r, key, OpeningQuote(text, site.separator).1, site);
    SiteIsValue(r, key, start);
  }

  lemma SiteIsValue(text: string, key: string, start: nat)
    requires start + |key| <= |text| && SiteAt(text, key, start).Assigned?
    ensures var site := SiteAt(text, key, start);
            && ValueBehind(text, key, site.separator) == site
            && var quote := OpeningQuote(text, site.separator).1;
               site.end == ValueEnd(text, key, quote, site.cursor) && (quote.Some? ==> IsQuote(quote.value))
  {
    hide MatchesAt, Seek, ValueEnd;
  }

  lemma MarkedIsStrictIff(text: string, r: string, key: string, start: nat)
    requires |key| > 0 && start + |key| <= |text| && NeedsMark(SiteAt(text, key, start))
    requires Marked(text, r, SiteAt(text, key, start))
    requires AgreeBehind(text, SiteAt(text, key, start).end, r, SiteAt(text, key, start).cursor + |REDACTED|)
    ensures start + |key| <= |r|
    ensures SiteOk(r, key, false, start) <==> EndsPlainly(text, key, start)
  {
    MarkedEnd(text, r, key, start);
    var site, now := SiteAt(text, key, start), SiteAt(r, key, start);
    hide SiteAt;
    SeeksFirst(r, site.cursor + |REDACTED|, PlainStop(OpeningQuote(text, site.separator).1));
    if now.end == site.cursor + |REDACTED| {
      assert r[now.cursor..now.end] == REDACTED;
    } else {
      assert |r[now.cursor..now.end]| != |REDACTED|;
    }
  }

  lemma FinishedIsStrictIff(text: string, key: string, start: nat)
    requires IsKey(key) && MatchesAt(text, start, key)
    ensures start + |key| <= |Finished(text, key, start)|
    ensures SiteOk(Finished(text, key, start), key, false, start) <==> EndsPlainly(text, key, start)
  {
    KeepsMatch(text, key, start);
    var r := Finished(text, key, start);
    hide Finished, IsKey, MatchesAt;
    if NeedsMark(SiteAt(text, key, start)) {
      MarkKept(text, key, start);
      MarkedIsStrictIff(text, r, key, start);
    } else {
      LookaheadKept(text, key, start);
      SiteKept(text, r, key, start);
    }
  }

  lemma StrictJoins(text: string, r: string, key: string, from: nat, start: nat, next: nat)
    requires SettledAt(r, key, start, next) && from <= start < next
    requires start + |key| <= |text| && start + |key| <= |r| && r[..start + |key|] == text[..start + |key|]
    requires forall j: nat :: from <= j < start ==> !MatchesAt(text, j, key)
    ensures Clean(r, key, false, from) <==> SiteOk(r, key, false, start) && Clean(r, key, false, next)
  {
    forall s: nat | from <= s < next && MatchesAt(r, s, key) ensures s == start {
      if s < start {
        NothingBefore(text, r, key, start, s);
      }
    }
  }

  // ------------------------------------------------------------ the condition only looks ahead

  lemma QuoteMoves(u: string, at: nat, v: string, to: nat, separator: nat)
    requires at <= separator < |u| && to <= |v| && u[at..] == v[to..]
    ensures separator - at + to < |v|
    ensures OpeningQuote(v, separator - at + to).1 == OpeningQuote(u, separator).1
  {
    SameTail(u, v, at, to);
    SeekMoves(u, v, at, to, separator + 1, NotSpace);
    var open := Seek(u, separator + 1, NotSpace);
    if open < |u| {
      ByteMoves(u, v, at, to, open);
    }
  }

  lemma EndMoves(u: string, at: nat, v: string, to: nat, key: string, start: nat)
    requires IsKey(key) && SameAhead(u, at, v, to) && at <= start && MatchesAt(u, start, key)
    ensures start - at + to + |key| <= |v|
    ensures EndsPlainly(v, key, start - at + to) == EndsPlainly(u, key, start)
  {
    SiteAhead(u, at, v, to, key, start);
    SameTail(u, v, at, to);
    var site := SiteAt(u, key, start);
    hide SiteAt, MatchesAt;
    match site {
      case Plain =>
      case Assigned(separator, cursor, end) =>
        QuoteMoves(u, at, v, to, separator);
        if end < |u| {
          ByteMoves(u, v, at, to, end);
        }
    }
  }

  lemma {:induction false} AllEndMoves(u: string, at: nat, v: string, to: nat, key: string)
    requires IsKey(key) && SameAhead(u, at, v, to)
    ensures AllEndPlainly(u, key, at) == AllEndPlainly(v, key, to)
    decreases |u| - at
  {
    hide CopySite, EndsPlainly;
    FindMoves(u, at, v, to, key);
    FindsFirst(u, key, at);
    if FindFrom(u, key, at).Some? {
      var start := FindFrom(u, key, at).value;
      AllEndUnfolds(u, key, at, start);
      AllEndUnfolds(v, key, to, start - at + to);
      CopySiteMoves(u, at, v, to, key, start);
      EndMoves(u, at, v, to, key, start);
      hide AllEndPlainly, MatchesAt, SameAhead, IsKey;
      AllEndMoves(u, CopySite(u, key, at, start).1, v, CopySite(v, key, to, start - at + to).1, key);
    }
  }

  lemma AllEndUnfolds(text: string, key: string, from: nat, start: nat)
    requires from <= |text| && |key| > 0 && FindFrom(text, key, from) == Some(start)
    ensures AllEndPlainly(text, key, from)
            <==> EndsPlainly(text, key, start) && AllEndPlainly(text, key, CopySite(text, key, from, start).1)
  {
  }

  // ------------------------------------------------------------ both together

  /** After the pass, every value is exactly the marker or empty, if and only if all values of the line end plainly. */
  lemma {:induction false} StrictIffAllEndPlainly(text: string, key: string, from: nat)
    requires IsKey(key) && from <= |text|
    ensures Clean(RedactAssignmentFrom(text, key, from), key, false, from) <==> AllEndPlainly(text, key, from)
    decreases |text| - from
  {
    FindsFirst(text, key, from);
    if FindFrom(text, key, from).Some? {
      var start := FindFrom(text, key, from).value;
      var next, piece := RewriteSite(text, key, start), CopySite(text, key, from, start);
      var r := Finished(text, key, start);
      AllEndUnfolds(text, key, from, start);
      Settles(text, key, start);
      KeepsMatch(text, key, start);
      FinishedIsStrictIff(text, key, start);
      StepIsCopy(text, key, from, start);
      RewriteKeeps(text, key, start);
      StrictJoins(text, r, key, from, start, next.from);
      hide RewriteSite, CopySite, MatchesAt, SameAhead, IsKey, SettledAt, EndsPlainly, SiteOk, Clean;
      StrictIffAllEndPlainly(next.text, key, next.from);
      AllEndMoves(next.text, next.from, text, piece.1, key);
    }
  }

  /** A value the pass replaced without changing the line was the marker already. */
  lemma UnchangedIsStrictAt(text: string, key: string, start: nat)
    requires IsKey(key) && MatchesAt(text, start, key) && Finished(text, key, start) == text
    ensures SiteOk(text, key, false, start)
  {
    var site := SiteAt(text, key, start);
    if NeedsMark(site) {
      MarkKept(text, key, start);
      MarkedEnd(text, text, key, start);
      var stop := PlainStop(OpeningQuote(text, site.separator).1);
      hide SiteAt, Finished, IsKey, MatchesAt;
      SeeksFirst(text, site.cursor + |REDACTED|, stop);
      assert text[site.cursor..site.cursor + |REDACTED|] == REDACTED;
    }
  }

  lemma {:induction false} UnchangedIsStrict(text: string, key: string, from: nat)
    requires IsKey(key) && from <= |text| && RedactAssignmentFrom(text, key, from) == text
    ensures Clean(text, key, false, from)
    decreases |text| - from
  {
    FindsFirst(text, key, from);
    if FindFrom(text, key, from).Some? {
      var start := FindFrom(text, key, from).value;
      var next := RewriteSite(text, key, start);
      assert Finished(text, key, start) == text;
      Settles(text, key, start);
      UnchangedIsStrictAt(text, key, start);
      CleanNeedsNoRewrite(text, key, start);
      RewriteKeeps(text, key, start);
      StrictJoins(text, text, key, from, start, next.from);
      hide RewriteSite, MatchesAt, IsKey, SettledAt, SiteOk, Clean;
      UnchangedIsStrict(text, key, next.from);
    }
  }

  /**
   A second pass changes nothing, if and only if every value the first pass
   comes to ends where a plain value ends.
   */
  lemma SecondPassIdleIff(text: string, key: string)
    requires IsKey(key)
    ensures var once := RedactAssignmentFrom(text, key, 0);
            RedactAssignmentFrom(once, key, 0) == once <==> AllEndPlainly(text, key, 0)
  {
    hide RedactAssignmentFrom, AllEndPlainly, Clean;
    var once := RedactAssignmentFrom(text, key, 0);
    StrictIffAllEndPlainly(text, key, 0);
    if Clean(once, key, false, 0) {
      CleanIsFixed(once, key, 0);
    }
    if RedactAssignmentFrom(once, key, 0) == once {
      UnchangedIsStrict(once, key, 0);
    }
  }

  // ------------------------------------------------------------ a line on which it does not hold

  /**
   The pass for `authorization` is not a fixed point: a token behind `bearer `
   ends at a quote, and what follows the quote belongs to the value the second
   time.
   */
  lemma AuthorizationPassChangesAgain()
    ensures var line := "authorization:bearer x\"y";
            var once := RedactAssignmentFrom(line, AUTHORIZATION, 0);
            && once == "authorization:[REDACTED]\"y"
            && RedactAssignmentFrom(once, AUTHORIZATION, 0) == "authorization:[REDACTED]"
  {
    var line, once, twice :=
      "authorization:bearer x\"y", "authorization:[REDACTED]\"y", "authorization:[REDACTED]";
    hide ValueEnd, RedactAssignmentFrom;
    FirstPass(line, once);
    SecondPass(once, twice);
  }

  lemma FirstPass(line: string, once: string)
    requires line == "authorization:bearer x\"y" && once == "authorization:[REDACTED]\"y"
    ensures RedactAssignmentFrom(line, AUTHORIZATION, 0) == once
  {
    FirstValueEnd(line);
    hide ValueEnd, RedactAssignmentFrom;
    assert Mark(line, 14, 22) == once;
    OnePass(line, 22, once);
  }

  lemma SecondPass(once: string, twice: string)
    requires once == "authorization:[REDACTED]\"y" && twice == "authorization:[REDACTED]"
    ensures RedactAssignmentFrom(once, AUTHORIZATION, 0) == twice
  {
    hide ValueEnd, RedactAssignmentFrom;
    SecondValueEnd(once);
    assert once[..14] == "authorization:";
    assert Mark(once, 14, 26) == twice;
    OnePass(once, 26, twice);
  }

  lemma FirstValueEnd(line: string)
    requires line == "authorization:bearer x\"y"
    ensures ValueEnd(line, AUTHORIZATION, None, 14) == 22
  {
    assert line[14..21] == BEARER;
    assert forall k :: 0 <= k < |BEARER| ==> line[14 + k] == line[14..21][k];
    SeekIs(line, 21, SpaceCommaSemicolonQuote, 22);
  }

  lemma SecondValueEnd(once: string)
    requires once == "authorization:[REDACTED]\"y"
    ensures ValueEnd(once, AUTHORIZATION, None, 14) == 26
  {
    assert Fold(once[14 + 0]) != Fold(BEARER[0]);
    SeekIs(once, 14, SpaceCommaSemicolon, 26);
  }

  /** A line that is one authorization value, up to `end`. */
  lemma OnePass(line: string, end: nat, r: string)
    requires 14 < end <= |line| && line[..14] == "authorization:" && !IsWhitespace(line[14]) && !IsQuote(line[14])
    requires ValueEnd(line, AUTHORIZATION, None, 14) == end
    requires r == Mark(line, 14, end)
    requires |r| < 24 + |AUTHORIZATION|
    ensures RedactAssignmentFrom(line, AUTHORIZATION, 0) == r
  {
    var key := AUTHORIZATION;
    assert MatchesAt(line, 0, key) by {
      assert forall k :: 0 <= k < |key| ==> line[k] == line[..14][k] == key[k];
    }
    FindIs(line, key, 0, 0);
    assert line[13] == line[..14][13] == ':';
    SeekIs(line, 13, NotSpaceOrQuote, 13);
    SeekIs(line, 14, NotSpace, 14);
    assert SiteAt(line, key, 0) == Assigned(13, 14, end);
    FindsFirst(r, key, 24);
    assert FindFrom(r, key, 24).None?;
  }
}
