/**
 What may follow the marker of an `authorization` value, and when it is still
 there at the end of the line's redaction: exactly when no later pass replaces a
 value or token that holds the whole occurrence.
 */
module RedactorTails {
  import opened Wrappers
  import opened AsciiText
  import opened Redactor
  import opened RedactorSites
  import opened RedactorTheorems
  import opened RedactorTwice
  import opened RedactorLine

  /** The position of `authorization` among the keys. */
  const AUTHORIZATION_PASS: nat := 5

  /** The occurrence of `authorization` at `s` has a value that is neither empty nor exactly the marker. */
  predicate Tailed(text: string, s: nat) {
    MatchesAt(text, s, AUTHORIZATION) && !SiteOk(text, AUTHORIZATION, false, s)
  }

  /** Where the occurrence at `s` is after a rewrite, unless the rewrite reaches into it. */
  function Shift(cut: nat, end: nat, s: nat): (t: Option<nat>) {
    if s + |AUTHORIZATION| <= cut then Some(s)
    else if end <= s then Some(s - end + cut + |REDACTED|)
    else None
  }

  function Unshift(cut: nat, end: nat, t: nat): (s: nat) {
    if t < cut then t else if cut + |REDACTED| <= t then t - (cut + |REDACTED|) + end else end
  }

  // ------------------------------------------------------------ one rewrite

  /** The rewrite starts clear of the value, and not between the key and its separator. */
  predicate LeftClear(text: string, s: nat, cut: nat)
    requires s + |AUTHORIZATION| <= |text|
  {
    var site := SiteAt(text, AUTHORIZATION, s);
    && SparesSite(site, !SiteOk(text, AUTHORIZATION, false, s), cut)
    && (site.Assigned? && site.cursor < site.end ==> site.separator < cut)
  }

  ghost predicate Clear(text: string, cut: nat, end: nat) {
    && cut <= end <= |text| && OutsideWord(text, end)
    && forall s: nat :: s + |AUTHORIZATION| <= cut && MatchesAt(text, s, AUTHORIZATION) ==> LeftClear(text, s, cut)
  }

  lemma TailIsLong(text: string, s: nat)
    requires Tailed(text, s) && SiteOk(text, AUTHORIZATION, true, s)
    ensures var site := SiteAt(text, AUTHORIZATION, s);
            && site.Assigned? && site.cursor + |REDACTED| < site.end
            && text[site.cursor..site.cursor + |REDACTED|] == REDACTED
            && (forall k :: site.cursor <= k < site.end ==>
                  !Stops(PlainStop(OpeningQuote(text, site.separator).1), text[k]))
  {
    var site := SiteAt(text, AUTHORIZATION, s);
    ValueBytes(text, true, site);
    var stop := PlainStop(OpeningQuote(text, site.separator).1);
    assert text[site.cursor] == REDACTED[site.cursor - site.cursor];
    assert !MatchesAt(text, site.cursor, BEARER) by {
      assert Fold(text[site.cursor + 0]) != Fold(BEARER[0]);
    }
    SeeksFirst(text, site.cursor, stop);
  }

  lemma TailLeft(text: string, m: string, cut: nat, s: nat)
    requires OpensAt(text, m, cut) && s + |AUTHORIZATION| <= cut
    requires Tailed(text, s) && SiteOk(text, AUTHORIZATION, true, s) && LeftClear(text, s, cut)
    ensures !SiteOk(m, AUTHORIZATION, false, s)
  {
    hide MatchesAt, Seek, ValueBehind;
    TailIsLong(text, s);
    if SiteAt(text, AUTHORIZATION, s).end < cut {
      TailApart(text, m, cut, s);
    } else {
      TailCut(text, m, cut, s);
    }
  }

  lemma TailApart(text: string, m: string, cut: nat, s: nat)
    requires OpensAt(text, m, cut) && s + |AUTHORIZATION| <= cut && Tailed(text, s)
    requires SiteAt(text, AUTHORIZATION, s).Assigned? && SiteAt(text, AUTHORIZATION, s).end < cut
    ensures !SiteOk(m, AUTHORIZATION, false, s)
  {
    hide MatchesAt, Seek, ValueBehind;
    var key, site := AUTHORIZATION, SiteAt(text, AUTHORIZATION, s);
    if s > 0 {
      assert m[..cut][s - 1] == text[..cut][s - 1];
    }
    AgreeBelow(text, m, cut, Lookahead(text, key, s));
    SiteKept(text, m, key, s);
    hide SiteAt;
    SameValue(text, m, cut, site);
  }

  /** The rewrite starts in the tail, or right behind it: what it leaves of the tail is followed by a marker. */
  lemma TailCut(text: string, m: string, cut: nat, s: nat)
    requires OpensAt(text, m, cut) && s + |AUTHORIZATION| <= cut && Tailed(text, s)
    requires SiteAt(text, AUTHORIZATION, s).Assigned? && cut <= SiteAt(text, AUTHORIZATION, s).end
    requires SiteOk(text, AUTHORIZATION, true, s) && LeftClear(text, s, cut)
    ensures !SiteOk(m, AUTHORIZATION, false, s)
  {
    hide MatchesAt, Seek, ValueBehind;
    TailIsLong(text, s);
    var key, site := AUTHORIZATION, SiteAt(text, AUTHORIZATION, s);
    SameSlice(text, m, cut, site.cursor, site.cursor + |REDACTED|);
    SameSlice(text, m, cut, 0, site.cursor);
    MarkedEnd(text, m, key, s);
    hide SiteAt;
    TailGoesOn(text, m, cut, site, PlainStop(OpeningQuote(text, site.separator).1));
  }

  lemma TailGoesOn(text: string, m: string, cut: nat, site: Site, stop: Stop)
    requires OpensAt(text, m, cut) && site.Assigned? && site.cursor + |REDACTED| <= cut
    requires site.cursor + |REDACTED| < site.end <= |text|
    requires stop == SpaceCommaSemicolon || (stop.Exactly? && IsQuote(stop.c))
    requires forall k :: site.cursor <= k < site.end ==> !Stops(stop, text[k])
    ensures Seek(m, site.cursor + |REDACTED|, stop) > site.cursor + |REDACTED|
  {
    var p := site.cursor + |REDACTED|;
    OpensWithBracket(text, m, cut);
    if p < cut {
      assert m[..cut][p] == text[..cut][p];
    }
    SeeksFirst(m, p, stop);
  }

  lemma LeftIff(text: string, m: string, cut: nat, s: nat)
    requires OpensAt(text, m, cut) && s + |AUTHORIZATION| <= cut && MatchesAt(text, s, AUTHORIZATION)
    requires SiteOk(text, AUTHORIZATION, true, s) && LeftClear(text, s, cut)
    ensures MatchesAt(m, s, AUTHORIZATION)
    ensures SiteOk(m, AUTHORIZATION, false, s) <==> SiteOk(text, AUTHORIZATION, false, s)
  {
    MatchLeft(text, m, cut, s, AUTHORIZATION);
    if SiteOk(text, AUTHORIZATION, false, s) {
      OkLeft(text, m, AUTHORIZATION, false, s, cut);
    } else {
      TailLeft(text, m, cut, s);
    }
  }

  lemma RightIff(text: string, m: string, from: nat, end: nat, t: nat)
    requires end <= |text| && from <= |m| && m[from..] == text[end..] && OutsideWord(text, end)
    requires from <= t && t + |AUTHORIZATION| <= |m|
    ensures t - from + end + |AUTHORIZATION| <= |text|
    ensures MatchesAt(m, t, AUTHORIZATION) <==> MatchesAt(text, t - from + end, AUTHORIZATION)
    ensures MatchesAt(m, t, AUTHORIZATION) ==>
              (SiteOk(m, AUTHORIZATION, false, t) <==> SiteOk(text, AUTHORIZATION, false, t - from + end))
  {
    SameTail(m, text, from, end);
    MatchMoves(m, text, from, end, t, AUTHORIZATION);
    if MatchesAt(m, t, AUTHORIZATION) {
      KeyFacts(AUTHORIZATION_PASS);
      SiteMovesRight(text, m, AUTHORIZATION, t, from, end);
      hide SiteAt, MatchesAt, IsKey, ValueOk;
      ValueIff(text, m, from, end, SiteAt(m, AUTHORIZATION, t), SiteAt(text, AUTHORIZATION, t - from + end));
    }
  }

  lemma ValueIff(text: string, m: string, from: nat, end: nat, site: Site, there: Site)
    requires end <= |text| && from <= |m| && m[from..] == text[end..]
    requires site.Assigned? ==> from <= site.separator < site.cursor <= site.end <= |m|
    requires there.Assigned? ==> end <= there.separator < there.cursor <= there.end <= |text|
    requires there == Move(site, from, end)
    ensures ValueOk(m, false, site) <==> ValueOk(text, false, there)
  {
    if site.Assigned? {
      ValueOkMoves(m, text, from, end, false, site);
      ValueOkMoves(text, m, end, from, false, there);
    }
  }

  lemma OkAt(text: string, s: nat)
    requires Clean(text, AUTHORIZATION, true, 0) && MatchesAt(text, s, AUTHORIZATION)
    ensures SiteOk(text, AUTHORIZATION, true, s)
  {
  }

  lemma ClearAt(text: string, cut: nat, end: nat, s: nat)
    requires Clear(text, cut, end) && s + |AUTHORIZATION| <= cut && MatchesAt(text, s, AUTHORIZATION)
    ensures LeftClear(text, s, cut)
  {
  }

  /** Left of the rewrite, an occurrence has a tail afterwards exactly if it had one before. */
  lemma TailedLeft(text: string, m: string, cut: nat, end: nat, s: nat)
    requires Clean(text, AUTHORIZATION, true, 0) && Clear(text, cut, end)
    requires OpensAt(text, m, cut) && s + |AUTHORIZATION| <= cut
    ensures Tailed(m, s) <==> Tailed(text, s)
  {
    MatchLeft(text, m, cut, s, AUTHORIZATION);
    if MatchesAt(text, s, AUTHORIZATION) {
      OkAt(text, s);
      ClearAt(text, cut, end, s);
      hide Clean, Clear, MatchesAt, SiteOk, OpensAt;
      LeftIff(text, m, cut, s);
    }
  }

  /** Right of it as well. */
  lemma TailedRight(text: string, m: string, from: nat, end: nat, t: nat)
    requires end <= |text| && from <= |m| && m[from..] == text[end..] && OutsideWord(text, end) && from <= t
    ensures Tailed(m, t) <==> Tailed(text, t - from + end)
  {
    SameTail(m, text, from, end);
    if t + |AUTHORIZATION| <= |m| {
      RightIff(text, m, from, end, t);
    }
  }

  /** And nothing is in between. */
  lemma NoTailAcross(text: string, m: string, cut: nat, t: nat)
    requires OpensAt(text, m, cut) && cut < t + |AUTHORIZATION| && t < cut + |REDACTED|
    ensures !Tailed(m, t)
  {
    KeyFacts(AUTHORIZATION_PASS);
    NeedleStaysOut(AUTHORIZATION);
    NoMatchAcross(text, m, cut, t, AUTHORIZATION);
  }

  /** A tail is still there after a rewrite that does not reach into its key. */
  lemma TailForward(text: string, cut: nat, end: nat, s: nat)
    requires Clean(text, AUTHORIZATION, true, 0) && Clear(text, cut, end)
    requires Tailed(text, s) && Shift(cut, end, s).Some?
    ensures Tailed(Mark(text, cut, end), Shift(cut, end, s).value)
  {
    hide Clean, Tailed, Mark, MatchesAt, IsWordByte;
    if s + |AUTHORIZATION| <= cut {
      MarkParts(text, cut, end);
      TailedLeft(text, Mark(text, cut, end), cut, end, s);
    } else {
      MarkParts(text, cut, end);
      TailedRight(text, Mark(text, cut, end), cut + |REDACTED|, end, s - end + cut + |REDACTED|);
    }
  }

  /** A rewrite makes no tail: each comes from one that was there. */
  lemma TailBack(text: string, cut: nat, end: nat, t: nat)
    requires Clean(text, AUTHORIZATION, true, 0) && Clear(text, cut, end)
    requires Tailed(Mark(text, cut, end), t)
    ensures var s := Unshift(cut, end, t); Tailed(text, s) && Shift(cut, end, s) == Some(t)
  {
    hide Clean, Tailed, Mark, MatchesAt, IsWordByte;
    if t + |AUTHORIZATION| <= cut {
      MarkParts(text, cut, end);
      TailedLeft(text, Mark(text, cut, end), cut, end, t);
    } else if t < cut + |REDACTED| {
      MarkParts(text, cut, end);
      NoTailAcross(text, Mark(text, cut, end), cut, t);
    } else {
      MarkParts(text, cut, end);
      TailedRight(text, Mark(text, cut, end), cut + |REDACTED|, end, t);
    }
  }

  // ------------------------------------------------------------ the rewrites of the later passes

  /** A token prefix starts with a letter, and not with one of the marker. */
  lemma PrefixClear(text: string, cut: nat, end: nat)
    requires Clean(text, AUTHORIZATION, true, 0) && cut < end <= |text| && OutsideWord(text, end)
    requires Fold(text[cut]) == 'g'
    ensures Clear(text, cut, end)
  {
    forall s: nat | s + |AUTHORIZATION| <= cut && MatchesAt(text, s, AUTHORIZATION) ensures LeftClear(text, s, cut) {
      OkAt(text, s);
      PrefixSparesSite(text, AUTHORIZATION, !SiteOk(text, AUTHORIZATION, false, s), s, cut);
      hide SiteOk, MatchesAt, SparesSite;
      if SiteAt(text, AUTHORIZATION, s).Assigned? {
        GapHoldsNoWord(text, AUTHORIZATION, s);
      }
    }
  }

  /** A bearer token stands behind `r` and a space, and the key ends in `n`. */
  lemma BearerClear(text: string, start: nat, end: nat)
    requires Clean(text, AUTHORIZATION, true, 0) && MatchesAt(text, start, BEARER)
    requires start + |BEARER| <= end <= |text| && OutsideWord(text, end)
    ensures Clear(text, start + |BEARER|, end)
  {
    var cut := start + |BEARER|;
    BearerEndsInSpace(text, start);
    MatchByte(text, start, BEARER, 5);
    forall s: nat | s + |AUTHORIZATION| <= cut && MatchesAt(text, s, AUTHORIZATION) ensures LeftClear(text, s, cut) {
      OkAt(text, s);
      MatchByte(text, s, AUTHORIZATION, 12);
      BearerSparesSite(text, AUTHORIZATION, !SiteOk(text, AUTHORIZATION, false, s), s, cut);
      BearerBehindSeparator(text, cut, s);
    }
  }

  lemma BearerBehindSeparator(text: string, cut: nat, s: nat)
    requires s + |AUTHORIZATION| <= cut <= |text| && Fold(text[s + 12]) == 'n'
    requires text[cut - 1] == ' ' && Fold(text[cut - 2]) == 'r'
    ensures SiteAt(text, AUTHORIZATION, s).Assigned? ==> SiteAt(text, AUTHORIZATION, s).separator < cut
  {
    if SiteAt(text, AUTHORIZATION, s).Assigned? {
      GapHoldsNoWord(text, AUTHORIZATION, s);
    }
  }

  /** A value of another key: between the keys there is no separator of the first alone. */
  lemma KeyClear(text: string, other: string, start: nat)
    requires Clean(text, AUTHORIZATION, true, 0) && IsKey(other) && Clash(other, 0, AUTHORIZATION)
    requires MatchesAt(text, start, other) && NeedsMark(SiteAt(text, other, start))
    ensures Clear(text, SiteAt(text, other, start).cursor, SiteAt(text, other, start).end)
  {
    KeyFacts(AUTHORIZATION_PASS);
    ValueEndsOutsideWords(text, other, start);
    var cut := SiteAt(text, other, start).cursor;
    forall s: nat | s + |AUTHORIZATION| <= cut && MatchesAt(text, s, AUTHORIZATION) ensures LeftClear(text, s, cut) {
      OkAt(text, s);
      if start <= s {
        KeyBehind(text, AUTHORIZATION, other, start, s);
      } else {
        KeyBefore(text, AUTHORIZATION, !SiteOk(text, AUTHORIZATION, false, s), other, start, s);
        if SiteAt(text, AUTHORIZATION, s).Assigned? {
          KeyBehindSeparator(text, other, start, s);
        }
      }
    }
  }

  lemma KeyBehindSeparator(text: string, other: string, start: nat, s: nat)
    requires IsKey(other) && MatchesAt(text, start, other) && NeedsMark(SiteAt(text, other, start))
    requires s < start && MatchesAt(text, s, AUTHORIZATION) && SiteAt(text, AUTHORIZATION, s).Assigned?
    ensures SiteAt(text, AUTHORIZATION, s).separator < SiteAt(text, other, start).cursor
  {
    KeyFacts(AUTHORIZATION_PASS);
    if start < s + |AUTHORIZATION| {
      MatchedByteIsWord(text, s, AUTHORIZATION, start - 1 - s);
    } else {
      MatchStartsWithWordByte(text, start, other);
      GapHoldsNoWord(text, AUTHORIZATION, s);
    }
  }

  // ------------------------------------------------------------ following an occurrence through the passes

  function FollowRewrite(site: Site, s: nat): (t: Option<nat>) {
    if NeedsMark(site) then Shift(site.cursor, site.end, s) else Some(s)
  }

  /** Where the occurrence at `s` is after the pass for another key, unless the pass reaches into it. */
  function FollowKey(text: string, other: string, from: nat, s: nat): (t: Option<nat>)
    requires from <= |text| && |other| > 0
    decreases |text| - from
  {
    match FindFrom(text, other, from)
    case None => Some(s)
    case Some(start) =>
      var next := RewriteSite(text, other, start);
      match FollowRewrite(SiteAt(text, other, start), s)
      case None => None
      case Some(t) => FollowKey(next.text, other, next.from, t)
  }

  function FollowToken(text: string, start: nat, s: nat): (t: Option<nat>)
    requires start + |BEARER| <= |text|
  {
    var token := start + |BEARER|;
    var end := Seek(text, token, SpaceCommaSemicolonQuote);
    if end > token then Shift(token, end, s) else Some(s)
  }

  function FollowBearer(text: string, from: nat, s: nat): (t: Option<nat>)
    decreases |text| - from
  {
    if from > |text| then None
    else
      match FindFrom(text, BEARER, from)
      case None => Some(s)
      case Some(start) =>
        var next := RewriteBearer(text, start);
        match FollowToken(text, start, s)
        case None => None
        case Some(t) => FollowBearer(next.text, next.from, t)
  }

  function FollowPrefix(text: string, prefix: string, from: nat, s: nat): (t: Option<nat>)
    requires from <= |text| && StartsToken(prefix)
    decreases |text| - from
  {
    match FindFrom(text, prefix, from)
    case None => Some(s)
    case Some(start) =>
      FindsFirst(text, prefix, from);
      var next := RewritePrefix(text, prefix, start);
      match Shift(start, Seek(text, start, SpaceCommaSemicolonQuote), s)
      case None => None
      case Some(t) => FollowPrefix(next.text, prefix, next.from, t)
  }

  /** The tails of `r` are exactly those tails of `text` that `follow` leads to. */
  ghost predicate TailsFollowed(text: string, r: string, follow: nat -> Option<nat>) {
    && (forall s: nat :: Tailed(text, s) && follow(s).Some? ==> Tailed(r, follow(s).value))
    && (forall t: nat :: Tailed(r, t) ==> exists s: nat :: Tailed(text, s) && follow(s) == Some(t))
  }

  lemma NothingFollowed(text: string, follow: nat -> Option<nat>)
    requires forall s: nat :: follow(s) == Some(s)
    ensures TailsFollowed(text, text, follow)
  {
  }

  lemma MarkFollowed(text: string, cut: nat, end: nat)
    requires Clean(text, AUTHORIZATION, true, 0) && Clear(text, cut, end)
    ensures TailsFollowed(text, Mark(text, cut, end), s => Shift(cut, end, s))
  {
    hide Clean, Tailed, Mark;
    forall s: nat | Tailed(text, s) && Shift(cut, end, s).Some?
      ensures Tailed(Mark(text, cut, end), Shift(cut, end, s).value)
    {
      TailForward(text, cut, end, s);
    }
    forall t: nat | Tailed(Mark(text, cut, end), t)
      ensures exists s: nat :: Tailed(text, s) && Shift(cut, end, s) == Some(t)
    {
      TailBack(text, cut, end, t);
    }
  }

  /** One after the other. */
  lemma FollowedOn(text: string, m: string, r: string, f: nat -> Option<nat>, g: nat -> Option<nat>,
                   h: nat -> Option<nat>)
    requires TailsFollowed(text, m, f) && TailsFollowed(m, r, g)
    requires forall s: nat :: h(s) == match f(s) case None => None case Some(t) => g(t)
    ensures TailsFollowed(text, r, h)
  {
    hide Tailed;
    forall t: nat | Tailed(r, t) ensures exists s: nat :: Tailed(text, s) && h(s) == Some(t) {
      var u: nat :| Tailed(m, u) && g(u) == Some(t);
      var s: nat :| Tailed(text, s) && f(s) == Some(u);
      assert h(s) == Some(t);
    }
  }

  lemma {:induction false} KeyPassFollowed(text: string, other: string, from: nat)
    requires Clean(text, AUTHORIZATION, true, 0) && IsKey(other) && Clash(other, 0, AUTHORIZATION) && from <= |text|
    ensures TailsFollowed(text, RedactAssignmentFrom(text, other, from), s => FollowKey(text, other, from, s))
    decreases |text| - from
  {
    FindsFirst(text, other, from);
    match FindFrom(text, other, from)
    case None =>
    case Some(start) =>
      var next, site := RewriteSite(text, other, start), SiteAt(text, other, start);
      KeyFacts(AUTHORIZATION_PASS);
      RewriteKeepsClean(text, other, start, AUTHORIZATION, true);
      KeyStepFollowed(text, other, start);
      hide RewriteSite, Clean, IsKey, Clash, MatchesAt, Tailed, TailsFollowed, SiteAt;
      KeyPassFollowed(next.text, other, next.from);
      FollowedOn(text, next.text, RedactAssignmentFrom(text, other, from), s => FollowRewrite(site, s),
                 s => FollowKey(next.text, other, next.from, s), s => FollowKey(text, other, from, s));
  }

  lemma KeyStepFollowed(text: string, other: string, start: nat)
    requires Clean(text, AUTHORIZATION, true, 0) && IsKey(other) && Clash(other, 0, AUTHORIZATION)
    requires MatchesAt(text, start, other)
    ensures TailsFollowed(text, RewriteSite(text, other, start).text, s => FollowRewrite(SiteAt(text, other, start), s))
  {
    var site := SiteAt(text, other, start);
    if NeedsMark(site) {
      KeyClear(text, other, start);
      MarkFollowed(text, site.cursor, site.end);
      assert RewriteSite(text, other, start).text == Mark(text, site.cursor, site.end);
      hide SiteAt, Clean, Clear, MatchesAt, IsKey, Mark, Tailed;
    }
  }

  lemma {:induction false} BearerPassFollowed(text: string, from: nat)
    requires Clean(text, AUTHORIZATION, true, 0) && RedactBearerFrom(text, from).Some?
    ensures TailsFollowed(text, RedactBearerFrom(text, from).value, s => FollowBearer(text, from, s))
    decreases |text| - from
  {
    hide RewriteBearer, Clean, IsKey, MatchesAt, Tailed, Shift, FollowToken;
    FindsFirst(text, BEARER, from);
    match FindFrom(text, BEARER, from)
    case None =>
    case Some(start) =>
      var next := RewriteBearer(text, start);
      KeyFacts(AUTHORIZATION_PASS);
      BearerKeepsClean(text, start, AUTHORIZATION, true);
      BearerStepFollowed(text, start);
      hide TailsFollowed;
      BearerPassFollowed(next.text, next.from);
      FollowedOn(text, next.text, RedactBearerFrom(text, from).value, s => FollowToken(text, start, s),
                 s => FollowBearer(next.text, next.from, s), s => FollowBearer(text, from, s));
  }

  lemma BearerStepFollowed(text: string, start: nat)
    requires Clean(text, AUTHORIZATION, true, 0) && MatchesAt(text, start, BEARER)
    ensures TailsFollowed(text, RewriteBearer(text, start).text, s => FollowToken(text, start, s))
  {
    var token := start + |BEARER|;
    var end := Seek(text, token, SpaceCommaSemicolonQuote);
    SeeksFirst(text, token, SpaceCommaSemicolonQuote);
    if end > token {
      BearerClear(text, start, end);
      MarkFollowed(text, token, end);
      hide Clean, Clear, MatchesAt, Mark, Tailed;
    }
  }

  lemma {:induction false} PrefixPassFollowed(text: string, prefix: string, from: nat)
    requires Clean(text, AUTHORIZATION, true, 0) && StartsToken(prefix) && Fold(prefix[0]) == 'g' && from <= |text|
    ensures TailsFollowed(text, RedactPrefixFrom(text, prefix, from), s => FollowPrefix(text, prefix, from, s))
    decreases |text| - from
  {
    match FindFrom(text, prefix, from)
    case None =>
    case Some(start) =>
      FindsFirst(text, prefix, from);
      var next, end := RewritePrefix(text, prefix, start), Seek(text, start, SpaceCommaSemicolonQuote);
      PrefixStepFollowed(text, prefix, start);
      hide Clean, MatchesAt, Tailed, TailsFollowed, Shift, Mark;
      PrefixPassFollowed(next.text, prefix, next.from);
      FollowedOn(text, next.text, RedactPrefixFrom(text, prefix, from), s => Shift(start, end, s),
                 s => FollowPrefix(next.text, prefix, next.from, s), s => FollowPrefix(text, prefix, from, s));
  }

  lemma PrefixStepFollowed(text: string, prefix: string, start: nat)
    requires Clean(text, AUTHORIZATION, true, 0) && StartsToken(prefix) && Fold(prefix[0]) == 'g'
    requires MatchesAt(text, start, prefix)
    ensures var next, end := RewritePrefix(text, prefix, start), Seek(text, start, SpaceCommaSemicolonQuote);
            && Clean(next.text, AUTHORIZATION, true, 0)
            && TailsFollowed(text, next.text, s => Shift(start, end, s))
  {
    var end := Seek(text, start, SpaceCommaSemicolonQuote);
    MatchByte(text, start, prefix, 0);
    SeeksFirst(text, start, SpaceCommaSemicolonQuote);
    PrefixClear(text, start, end);
    MarkFollowed(text, start, end);
    KeyFacts(AUTHORIZATION_PASS);
    PrefixSpares(text, AUTHORIZATION, true, start);
    hide Clean, Clear, MatchesAt, Mark, Tailed, Spares, TailsFollowed, IsKey;
    MarkStaysClean(text, AUTHORIZATION, true, start, end);
  }

  // ------------------------------------------------------------ the whole line

  /** Where an occurrence in the text behind the `authorization` pass is behind the pass for key `n - 1`. */
  function FollowKeys(line: string, n: nat, s: nat): (t: Option<nat>)
    requires AUTHORIZATION_PASS < n <= |SENSITIVE_KEYS|
  {
    if n == AUTHORIZATION_PASS + 1 then Some(s)
    else
      match FollowKeys(line, n - 1, s)
      case None => None
      case Some(t) => FollowKey(RedactKeys(line, n - 1), SENSITIVE_KEYS[n - 1], 0, t)
  }

  function FollowPrefixes(text: string, n: nat, s: nat): (t: Option<nat>)
    requires n <= |TOKEN_PREFIXES|
  {
    if n == 0 then Some(s)
    else
      match FollowPrefixes(text, n - 1, s)
      case None => None
      case Some(t) => FollowPrefix(RedactPrefixes(text, n - 1), TOKEN_PREFIXES[n - 1], 0, t)
  }

  /** Where it is in the redacted line, unless a later pass replaces a value or token that it lies in. */
  function FollowLine(line: string, s: nat): (t: Option<nat>)
    requires RedactLine(line).Some?
  {
    var keyed := RedactKeys(line, |SENSITIVE_KEYS|);
    match FollowKeys(line, |SENSITIVE_KEYS|, s)
    case None => None
    case Some(t) =>
      match FollowBearer(keyed, 0, t)
      case None => None
      case Some(u) => FollowPrefixes(RedactBearerFrom(keyed, 0).value, |TOKEN_PREFIXES|, u)
  }

  lemma {:induction false} KeysFollowed(line: string, n: nat)
    requires AUTHORIZATION_PASS < n <= |SENSITIVE_KEYS|
    ensures TailsFollowed(RedactKeys(line, AUTHORIZATION_PASS + 1), RedactKeys(line, n), s => FollowKeys(line, n, s))
    decreases n
  {
    hide Clean, TailsFollowed, RedactKeys, FollowKey, Tailed;
    var behind := RedactKeys(line, AUTHORIZATION_PASS + 1);
    if n > AUTHORIZATION_PASS + 1 {
      var text, other := RedactKeys(line, n - 1), SENSITIVE_KEYS[n - 1];
      KeysFollowed(line, n - 1);
      KeysUnfold(line, n);
      KeyFollowed(line, n);
      hide FollowKeys;
      FollowedOn(behind, text, RedactKeys(line, n), s => FollowKeys(line, n - 1, s),
                 s => FollowKey(text, other, 0, s), s => FollowKeys(line, n, s));
    } else {
      NothingFollowed(behind, s => FollowKeys(line, n, s));
    }
  }

  lemma KeyIsLong(i: nat)
    requires i < |SENSITIVE_KEYS|
    ensures |SENSITIVE_KEYS[i]| >= 3
  {
  }

  lemma KeyFollowed(line: string, n: nat)
    requires AUTHORIZATION_PASS + 1 < n <= |SENSITIVE_KEYS|
    ensures |SENSITIVE_KEYS[n - 1]| > 0
    ensures TailsFollowed(RedactKeys(line, n - 1), RedactKeys(line, n),
                          s => FollowKey(RedactKeys(line, n - 1), SENSITIVE_KEYS[n - 1], 0, s))
  {
    hide Clean, TailsFollowed, IsKey, RedactKeys, FollowKey, RedactAssignmentFrom, Tailed, Trails;
    KeysClean(line, n - 1, AUTHORIZATION_PASS);
    CleanWithTail(RedactKeys(line, n - 1), Trails(line, AUTHORIZATION_PASS));
    KeyFacts(n - 1);
    KeyIsLong(n - 1);
    KeysApart(AUTHORIZATION_PASS, n - 1);
    KeysUnfold(line, n);
    hide Clash;
    KeyPassFollowed(RedactKeys(line, n - 1), SENSITIVE_KEYS[n - 1], 0);
  }

  lemma KeysUnfold(line: string, n: nat)
    requires 0 < n <= |SENSITIVE_KEYS|
    ensures |SENSITIVE_KEYS[n - 1]| > 0
    ensures RedactKeys(line, n) == RedactAssignmentFrom(RedactKeys(line, n - 1), SENSITIVE_KEYS[n - 1], 0)
    ensures n > AUTHORIZATION_PASS + 1 ==>
              forall s: nat :: FollowKeys(line, n, s)
                == match FollowKeys(line, n - 1, s)
                   case None => None
                   case Some(t) => FollowKey(RedactKeys(line, n - 1), SENSITIVE_KEYS[n - 1], 0, t)
  {
    hide FollowKey, RedactAssignmentFrom;
  }

  lemma CleanWithTail(text: string, tail: bool)
    requires Clean(text, AUTHORIZATION, tail, 0)
    ensures Clean(text, AUTHORIZATION, true, 0)
  {
    forall s: nat | MatchesAt(text, s, AUTHORIZATION) ensures SiteOk(text, AUTHORIZATION, true, s) {
      assert SiteOk(text, AUTHORIZATION, tail, s);
    }
  }

  lemma {:induction false} PrefixesFollowed(text: string, n: nat)
    requires n <= |TOKEN_PREFIXES| && Clean(text, AUTHORIZATION, true, 0)
    ensures TailsFollowed(text, RedactPrefixes(text, n), s => FollowPrefixes(text, n, s))
    decreases n
  {
    if n > 0 {
      var before, prefix := RedactPrefixes(text, n - 1), TOKEN_PREFIXES[n - 1];
      PrefixesFollowed(text, n - 1);
      PrefixesKeep(text, n - 1, AUTHORIZATION_PASS, true);
      PrefixFacts(n - 1);
      PrefixesUnfold(text, n);
      hide Clean, TailsFollowed, Tailed, RedactPrefixes, FollowPrefixes, FollowPrefix, RedactPrefixFrom;
      PrefixPassFollowed(before, prefix, 0);
      FollowedOn(text, before, RedactPrefixes(text, n), s => FollowPrefixes(text, n - 1, s),
                 s => FollowPrefix(before, prefix, 0, s), s => FollowPrefixes(text, n, s));
    }
  }

  lemma PrefixesUnfold(text: string, n: nat)
    requires 0 < n <= |TOKEN_PREFIXES|
    ensures StartsToken(TOKEN_PREFIXES[n - 1]) && Fold(TOKEN_PREFIXES[n - 1][0]) == 'g'
    ensures RedactPrefixes(text, n) == RedactPrefixFrom(RedactPrefixes(text, n - 1), TOKEN_PREFIXES[n - 1], 0)
    ensures forall s: nat :: FollowPrefixes(text, n, s)
              == match FollowPrefixes(text, n - 1, s)
                 case None => None
                 case Some(t) => FollowPrefix(RedactPrefixes(text, n - 1), TOKEN_PREFIXES[n - 1], 0, t)
  {
    hide FollowPrefix, RedactPrefixFrom;
  }

  lemma LineFollowed(line: string)
    requires RedactLine(line).Some?
    ensures TailsFollowed(RedactKeys(line, AUTHORIZATION_PASS + 1), RedactLine(line).value, s => FollowLine(line, s))
  {
    var behind, keyed := RedactKeys(line, AUTHORIZATION_PASS + 1), RedactKeys(line, |SENSITIVE_KEYS|);
    var swept := RedactBearerFrom(keyed, 0).value;
    hide Clean, TailsFollowed, Tailed, IsKey, RedactKeys, Trails, RedactPrefixes, RedactBearerFrom;
    KeyFacts(AUTHORIZATION_PASS);
    KeysFollowed(line, |SENSITIVE_KEYS|);
    KeysClean(line, |SENSITIVE_KEYS|, AUTHORIZATION_PASS);
    CleanWithTail(keyed, Trails(line, AUTHORIZATION_PASS));
    BearerPassFollowed(keyed, 0);
    BearerPassKeeps(keyed, 0, AUTHORIZATION, true);
    PrefixesFollowed(swept, |TOKEN_PREFIXES|);
    var toKeyed, toSwept := s => FollowKeys(line, |SENSITIVE_KEYS|, s), s => FollowBearer(keyed, 0, s);
    var both: nat -> Option<nat> := s => match toKeyed(s) case None => None case Some(t) => toSwept(t);
    FollowedOn(behind, keyed, swept, toKeyed, toSwept, both);
    FollowedOn(behind, swept, RedactLine(line).value, both, s => FollowPrefixes(swept, |TOKEN_PREFIXES|, s),
               s => FollowLine(line, s));
  }

  ghost predicate HasTail(text: string) {
    exists s: nat :: Tailed(text, s)
  }

  /** A tail that the `authorization` pass leaves is still there at the end. */
  ghost predicate TailSurvives(line: string)
    requires RedactLine(line).Some?
  {
    exists s: nat :: Tailed(RedactKeys(line, AUTHORIZATION_PASS + 1), s) && FollowLine(line, s).Some?
  }

  /**
   Exactly when something is left behind an `authorization` marker of the
   redacted line: the pass for `authorization` leaves a tail, because a value of
   the text that reaches it does not end where a plain value ends, and no later
   pass replaces a value or token in which that occurrence lies.
   */
  lemma TailSurvivesIff(line: string)
    requires RedactLine(line).Some?
    ensures !Clean(RedactLine(line).value, AUTHORIZATION, false, 0) <==> TailSurvives(line)
    ensures HasTail(RedactKeys(line, AUTHORIZATION_PASS + 1)) <==> Trails(line, AUTHORIZATION_PASS)
    ensures TailSurvives(line) ==> Trails(line, AUTHORIZATION_PASS)
  {
    PassTails(line);
    LineFollowed(line);
    hide FollowLine, RedactKeys, RedactLine, Tailed, Trails;
    NotCleanIsTailed(RedactLine(line).value);
    FollowedTails(RedactKeys(line, AUTHORIZATION_PASS + 1), RedactLine(line).value, s => FollowLine(line, s));
  }

  lemma FollowedTails(text: string, r: string, follow: nat -> Option<nat>)
    requires TailsFollowed(text, r, follow)
    ensures HasTail(r) <==> exists s: nat :: Tailed(text, s) && follow(s).Some?
  {
    hide Tailed;
    if HasTail(r) {
      var t: nat :| Tailed(r, t);
      var s: nat :| Tailed(text, s) && follow(s) == Some(t);
    }
  }

  lemma NotCleanIsTailed(text: string)
    ensures !Clean(text, AUTHORIZATION, false, 0) <==> HasTail(text)
  {
    hide SiteOk;
    if !Clean(text, AUTHORIZATION, false, 0) {
      var s: nat :| MatchesAt(text, s, AUTHORIZATION) && !SiteOk(text, AUTHORIZATION, false, s);
      assert Tailed(text, s);
    }
  }

  lemma PassTails(line: string)
    ensures HasTail(RedactKeys(line, AUTHORIZATION_PASS + 1)) <==> Trails(line, AUTHORIZATION_PASS)
  {
    var text := RedactKeys(line, AUTHORIZATION_PASS);
    KeyFacts(AUTHORIZATION_PASS);
    KeysUnfold(line, AUTHORIZATION_PASS + 1);
    hide RedactKeys, Tailed, Clean;
    StrictIffAllEndPlainly(text, AUTHORIZATION, 0);
    NotCleanIsTailed(RedactAssignmentFrom(text, AUTHORIZATION, 0));
  }
}
