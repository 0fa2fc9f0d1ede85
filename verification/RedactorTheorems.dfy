/**
 What one assignment pass achieves: every assigned value of the key is gone
 from the result, wherever the key occurs, so a second pass changes nothing,
 and everything outside the replaced values is as it was.
 */
module RedactorTheorems {
  import opened Wrappers
  import opened AsciiText
  import opened Redactor
  import opened RedactorSites

  /**
   The value at `site`, if any, is empty or exactly the marker; with `tail`, it
   may also be the marker followed by anything.
   */
  predicate ValueOk(text: string, tail: bool, site: Site)
    requires site.Assigned? ==> site.cursor <= site.end <= |text|
  {
    match site
    case Plain => true
    case Assigned(_, cursor, end) =>
      || end == cursor
      || text[cursor..end] == REDACTED
      || (tail && cursor + |REDACTED| <= end && text[cursor..cursor + |REDACTED|] == REDACTED)
  }

  predicate SiteOk(text: string, key: string, tail: bool, start: nat)
    requires start + |key| <= |text|
  {
    ValueOk(text, tail, SiteAt(text, key, start))
  }

  /**
   No value of `key` survives, at any occurrence from byte `from` on, except,
   with `tail`, behind a marker.
   */
  ghost predicate Clean(text: string, key: string, tail: bool, from: nat) {
    forall s: nat :: from <= s && MatchesAt(text, s, key) ==> SiteOk(text, key, tail, s)
  }

  // ------------------------------------------------------------ what a pass leaves alone

  lemma {:induction false} KeepsPrefix(text: string, key: string, from: nat)
    requires from <= |text| && |key| > 0
    ensures var r := RedactAssignmentFrom(text, key, from);
            from <= |r| && r[..from] == text[..from]
    decreases |text| - from
  {
    hide RewriteSite, FindFrom;
    match FindFrom(text, key, from)
    case None =>
    case Some(start) =>
      var next := RewriteSite(text, key, start);
      RewriteKeeps(text, key, start);
      KeepsPrefix(next.text, key, next.from);
      SamePrefix(RedactAssignmentFrom(next.text, key, next.from), next.text, next.from, from);
      SamePrefix(next.text, text, start + |key|, from);
  }

  lemma SamePrefix(u: string, v: string, p: nat, q: nat)
    requires q <= p <= |u| && p <= |v| && u[..p] == v[..p]
    ensures u[..q] == v[..q]
  {
    assert u[..q] == u[..p][..q] && v[..q] == v[..p][..q];
  }

  lemma RewriteKeeps(text: string, key: string, start: nat)
    requires |key| > 0 && start + |key| <= |text|
    ensures var next := RewriteSite(text, key, start);
            start + |key| <= next.from && next.text[..start + |key|] == text[..start + |key|]
  {
    var next := RewriteSite(text, key, start);
    match SiteAt(text, key, start)
    case Plain =>
    case Assigned(_, cursor, end) =>
      var kept := start + |key|;
      assert next.text[..kept] == next.text[..cursor][..kept] == text[..cursor][..kept];
  }

  /** The line at the end of the pass, seen from the iteration that handles the match at `start`. */
  function Finished(text: string, key: string, start: nat): string
    requires |key| > 0 && start + |key| <= |text|
  {
    var next := RewriteSite(text, key, start);
    RedactAssignmentFrom(next.text, key, next.from)
  }

  /** A match at `start` stays where it is, with everything up to its end. */
  lemma KeepsMatch(text: string, key: string, start: nat)
    requires |key| > 0 && MatchesAt(text, start, key)
    ensures var r := Finished(text, key, start);
            && start + |key| <= |r|
            && r[..start + |key|] == text[..start + |key|]
            && MatchesAt(r, start, key)
  {
    var next := RewriteSite(text, key, start);
    var r := RedactAssignmentFrom(next.text, key, next.from);
    var kept := start + |key|;
    RewriteKeeps(text, key, start);
    KeepsPrefix(next.text, key, next.from);
    SamePrefix(r, next.text, next.from, kept);
    forall k | 0 <= k < |key| ensures Fold(r[start + k]) == Fold(key[k]) {
      assert r[..kept][start + k] == text[..kept][start + k];
    }
  }

  /** With no match before `p`, the text up to and including `p` stays. */
  lemma KeepsThrough(text: string, key: string, from: nat, p: nat)
    requires from <= p <= |text| && |key| > 0
    requires forall j: nat :: from <= j < p ==> !MatchesAt(text, j, key)
    ensures AgreeThrough(text, RedactAssignmentFrom(text, key, from), p)
  {
    hide RewriteSite;
    FindsFirst(text, key, from);
    match FindFrom(text, key, from)
    case None =>
    case Some(start) =>
      KeepsMatch(text, key, start);
      AgreeBelow(text, Finished(text, key, start), start + |key|, p);
  }

  lemma NoMatchInGap(text: string, key: string, from: nat, to: nat)
    requires IsKey(key) && from <= to <= |text|
    requires forall k :: from <= k < to ==> !IsWordByte(text[k])
    ensures forall s: nat :: from <= s < to ==> !MatchesAt(text, s, key)
  {
    forall s: nat | from <= s < to ensures !MatchesAt(text, s, key) {
      if MatchesAt(text, s, key) {
        MatchStartsWithWordByte(text, s, key);
      }
    }
  }

  // ------------------------------------------------------------ one iteration settles its site

  /**
   After the pass has gone on behind the match at `start`, that match is still
   there, its value is fine, and no other match starts before the point where
   the scan went on.
   */
  ghost predicate SettledAt(r: string, key: string, start: nat, next: nat) {
    && MatchesAt(r, start, key) && SiteOk(r, key, key == AUTHORIZATION, start)
    && forall s: nat :: start < s < next ==> !MatchesAt(r, s, key)
  }

  lemma NoOtherMatch(r: string, key: string, start: nat)
    requires IsKey(key) && MatchesAt(r, start, key)
    ensures forall s: nat :: start < s < start + |key| ==> !MatchesAt(r, s, key)
  {
    forall s: nat | start < s < start + |key| ensures !MatchesAt(r, s, key) {
      NoMatchInside(r, start, key, s, key);
    }
  }

  /** Between the key and its value there is only spacing, quotes and the separator. */
  lemma GapHoldsNoWord(text: string, key: string, start: nat)
    requires start + |key| <= |text| && SiteAt(text, key, start).Assigned?
    ensures forall k :: start + |key| <= k < SiteAt(text, key, start).cursor ==> !IsWordByte(text[k])
  {
    hide Seek, ValueEnd;
    SeeksFirst(text, start + |key|, NotSpaceOrQuote);
    SeeksFirst(text, SiteAt(text, key, start).separator + 1, NotSpace);
  }

  predicate NeedsMark(site: Site) {
    site.Assigned? && site.cursor < site.end
  }

  /** Where the scan goes on behind a site whose value is left alone. */
  function Behind(key: string, start: nat, site: Site): nat {
    match site
    case Plain => start + |key|
    case Assigned(_, cursor, _) => cursor
  }

  lemma SettledAsIs(text: string, r: string, key: string, start: nat)
    requires IsKey(key) && start + |key| <= |text| && MatchesAt(r, start, key)
    requires !NeedsMark(SiteAt(text, key, start))
    requires AgreeThrough(text, r, Lookahead(text, key, start))
    ensures SettledAt(r, key, start, Behind(key, start, SiteAt(text, key, start)))
  {
    SiteKept(text, r, key, start);
    NoOtherMatch(r, key, start);
    if SiteAt(r, key, start).Assigned? {
      GapHoldsNoWord(r, key, start);
      NoMatchInGap(r, key, start + |key|, SiteAt(r, key, start).cursor);
    }
  }

  /** Later iterations leave alone everything that decided about a site without a value to mark. */
  lemma LookaheadKept(text: string, key: string, start: nat)
    requires IsKey(key) && MatchesAt(text, start, key)
    requires !NeedsMark(SiteAt(text, key, start))
    ensures AgreeThrough(text, Finished(text, key, start), Lookahead(text, key, start))
  {
    var next := Behind(key, start, SiteAt(text, key, start));
    assert RewriteSite(text, key, start) == Progress(text, next);
    var p := Lookahead(text, key, start);
    if p < next {
      KeepsPrefix(text, key, next);
      AgreeBelow(text, RedactAssignmentFrom(text, key, next), next, p);
    } else {
      SeeksFirst(text, start + |key|, NotSpaceOrQuote);
      NoMatchInGap(text, key, next, p);
      KeepsThrough(text, key, next, p);
    }
  }

  lemma SettledMarked(text: string, r: string, key: string, start: nat)
    requires IsKey(key) && start + |key| <= |text| && MatchesAt(r, start, key)
    requires NeedsMark(SiteAt(text, key, start))
    requires var site := SiteAt(text, key, start);
             Marked(text, r, site) && AgreeBehind(text, site.end, r, site.cursor + |REDACTED|)
    ensures SettledAt(r, key, start, SiteAt(text, key, start).cursor + |REDACTED|)
  {
    var c := SiteAt(text, key, start).cursor;
    MarkedSite(text, r, key, start);
    NoOtherMatch(r, key, start);
    GapHoldsNoWord(r, key, start);
    NoMatchInGap(r, key, start + |key|, c);
    forall s: nat | c <= s < c + |REDACTED| ensures !MatchesAt(r, s, key) {
      NoMatchInMarker(r, c, s, key);
    }
  }

  /** Later iterations leave a marker, and the byte behind it, alone. */
  lemma MarkKept(text: string, key: string, start: nat)
    requires IsKey(key) && start + |key| <= |text| && NeedsMark(SiteAt(text, key, start))
    ensures var site, r := SiteAt(text, key, start), Finished(text, key, start);
            Marked(text, r, site) && AgreeBehind(text, site.end, r, site.cursor + |REDACTED|)
  {
    hide Mark, Finished, RewriteSite, SiteAt;
    MarkAgrees(text, key, start);
    FinishedAgrees(text, key, start);
    MarkedThrough(text, SiteAt(text, key, start), RewriteSite(text, key, start).text, Finished(text, key, start));
  }

  lemma FinishedAgrees(text: string, key: string, start: nat)
    requires |key| > 0 && start + |key| <= |text|
    ensures var next := RewriteSite(text, key, start);
            AgreeThrough(next.text, Finished(text, key, start), next.from)
  {
    var next := RewriteSite(text, key, start);
    hide RewriteSite;
    KeepsThrough(next.text, key, next.from, next.from);
  }

  lemma MarkAgrees(text: string, key: string, start: nat)
    requires |key| > 0 && start + |key| <= |text| && NeedsMark(SiteAt(text, key, start))
    ensures var site, next := SiteAt(text, key, start), RewriteSite(text, key, start);
            && next.from == site.cursor + |REDACTED|
            && Marked(text, next.text, site)
            && AgreeBehind(text, site.end, next.text, next.from)
  {
    var site := SiteAt(text, key, start);
    hide SiteAt;
    MarkParts(text, site.cursor, site.end);
    var marked := Mark(text, site.cursor, site.end);
    assert site.end < |text| ==> marked[site.cursor + |REDACTED|..][0] == text[site.end..][0];
  }

  lemma MarkedThrough(text: string, site: Site, marked: string, r: string)
    requires NeedsMark(site) && site.end <= |text|
    requires Marked(text, marked, site) && AgreeBehind(text, site.end, marked, site.cursor + |REDACTED|)
    requires AgreeThrough(marked, r, site.cursor + |REDACTED|)
    ensures Marked(text, r, site) && AgreeBehind(text, site.end, r, site.cursor + |REDACTED|)
  {
    var c, next := site.cursor, site.cursor + |REDACTED|;
    SamePrefix(r, marked, next, c);
    assert r[c..next] == r[..next][c..] && marked[c..next] == marked[..next][c..];
  }

  lemma Settles(text: string, key: string, start: nat)
    requires IsKey(key) && MatchesAt(text, start, key)
    ensures SettledAt(Finished(text, key, start), key, start, RewriteSite(text, key, start).from)
  {
    KeepsMatch(text, key, start);
    var site, r := SiteAt(text, key, start), Finished(text, key, start);
    hide Finished;
    if NeedsMark(site) {
      MarkKept(text, key, start);
      SettledMarked(text, r, key, start);
    } else {
      LookaheadKept(text, key, start);
      SettledAsIs(text, r, key, start);
    }
  }

  // ------------------------------------------------------------ the pass as a whole

  /**
   After its pass, no value of the key survives anywhere in the line; behind the
   marker of an `authorization` value, something may.
   */
  lemma {:induction false} PassCleans(text: string, key: string, from: nat)
    requires IsKey(key) && from <= |text|
    ensures Clean(RedactAssignmentFrom(text, key, from), key, key == AUTHORIZATION, from)
    decreases |text| - from
  {
    FindsFirst(text, key, from);
    if FindFrom(text, key, from).Some? {
      var start := FindFrom(text, key, from).value;
      var next := RewriteSite(text, key, start);
      Settles(text, key, start);
      KeepsMatch(text, key, start);
      hide RewriteSite, IsKey, MatchesAt, SettledAt;
      PassCleans(next.text, key, next.from);
      CleanJoins(text, Finished(text, key, start), key, from, start, next.from);
    }
  }

  lemma CleanJoins(text: string, r: string, key: string, from: nat, start: nat, next: nat)
    requires SettledAt(r, key, start, next) && Clean(r, key, key == AUTHORIZATION, next)
    requires start + |key| <= |text| && start + |key| <= |r| && r[..start + |key|] == text[..start + |key|]
    requires forall j: nat :: from <= j < start ==> !MatchesAt(text, j, key)
    ensures Clean(r, key, key == AUTHORIZATION, from)
  {
    forall s: nat | from <= s && MatchesAt(r, s, key) ensures SiteOk(r, key, key == AUTHORIZATION, s) {
      if s < start {
        NothingBefore(text, r, key, start, s);
      }
    }
  }

  lemma NothingBefore(text: string, r: string, key: string, start: nat, s: nat)
    requires s < start && start + |key| <= |text| && start + |key| <= |r|
    requires r[..start + |key|] == text[..start + |key|]
    requires MatchesAt(r, s, key)
    ensures MatchesAt(text, s, key)
  {
    forall k | 0 <= k < |key| ensures Fold(text[s + k]) == Fold(key[k]) {
      assert r[..start + |key|][s + k] == text[..start + |key|][s + k];
    }
  }

  lemma CleanNeedsNoRewrite(text: string, key: string, start: nat)
    requires |key| > 0 && start + |key| <= |text| && SiteOk(text, key, false, start)
    ensures RewriteSite(text, key, start).text == text
  {
    match SiteAt(text, key, start)
    case Plain =>
    case Assigned(_, cursor, end) =>
      if end > cursor {
        assert |text[cursor..end]| == |REDACTED|;
        assert Mark(text, cursor, end) == text[..cursor] + text[cursor..end] + text[end..] == text;
      }
  }

  lemma {:induction false} CleanIsFixed(text: string, key: string, from: nat)
    requires |key| > 0 && from <= |text| && Clean(text, key, false, from)
    ensures RedactAssignmentFrom(text, key, from) == text
    decreases |text| - from
  {
    FindsFirst(text, key, from);
    match FindFrom(text, key, from)
    case None =>
    case Some(start) =>
      assert SiteOk(text, key, false, start);
      var next := RewriteSite(text, key, start);
      RewriteKeeps(text, key, start);
      CleanNeedsNoRewrite(text, key, start);
      CleanIsFixed(text, key, next.from);
  }

  /** A line is unchanged by the pass exactly when no value of the key is left in it. */
  lemma UnchangedIffClean(text: string, key: string)
    requires IsKey(key) && key != AUTHORIZATION
    ensures RedactAssignmentFrom(text, key, 0) == text <==> Clean(text, key, false, 0)
  {
    PassCleans(text, key, 0);
    if Clean(text, key, false, 0) {
      CleanIsFixed(text, key, 0);
    }
  }

  /** A second pass over the same key changes nothing. */
  lemma PassIsIdempotent(line: string, i: nat)
    requires i < |SENSITIVE_KEYS| && SENSITIVE_KEYS[i] != AUTHORIZATION
    ensures var once := RedactAssignmentFrom(line, SENSITIVE_KEYS[i], 0);
            RedactAssignmentFrom(once, SENSITIVE_KEYS[i], 0) == once
  {
    KeyFacts(i);
    PassCleans(line, SENSITIVE_KEYS[i], 0);
    CleanIsFixed(RedactAssignmentFrom(line, SENSITIVE_KEYS[i], 0), SENSITIVE_KEYS[i], 0);
  }

  // ------------------------------------------------------------ the pass as a copy

  /** What is copied out from `from` up to the value at `site`, and where reading goes on. */
  function CopyUpTo(text: string, from: nat, keyEnd: nat, site: Site): (r: (string, nat))
    requires from < keyEnd <= |text|
    requires site.Assigned? ==> keyEnd < site.cursor <= site.end <= |text|
    ensures keyEnd <= r.1 <= |text|
  {
    match site
    case Plain => (text[from..keyEnd], keyEnd)
    case Assigned(_, cursor, end) =>
      if end > cursor then (text[from..cursor] + REDACTED, end)
      else (text[from..cursor], cursor)
  }

  function CopySite(text: string, key: string, from: nat, start: nat): (r: (string, nat))
    requires |key| > 0 && from <= start && start + |key| <= |text|
    ensures start < r.1 <= |text|
  {
    CopyUpTo(text, from, start + |key|, SiteAt(text, key, start))
  }

  /**
   The reference form of the pass: the line is read once, never edited, and
   copied out piece by piece, with each non-empty assigned value left out and
   the marker written in its place. What it returns is the copy of `text[from..]`.
   */
  function CopyRedacted(text: string, key: string, from: nat): (copy: string)
    requires from <= |text| && |key| > 0
    decreases |text| - from
  {
    match FindFrom(text, key, from)
    case None => text[from..]
    case Some(start) =>
      var piece := CopySite(text, key, from, start);
      piece.0 + CopyRedacted(text, key, piece.1)
  }

  /** Two scan positions with the same text ahead, and nothing behind that matters to the next match. */
  ghost predicate SameAhead(u: string, at: nat, v: string, to: nat) {
    && at <= |u| && to <= |v| && u[at..] == v[to..]
    && (|| at == |u|
        || !IsWordByte(u[at])
        || (at > 0 && to > 0 && u[at - 1] == v[to - 1]))
  }

  lemma SiteAhead(u: string, at: nat, v: string, to: nat, key: string, s: nat)
    requires IsKey(key) && SameAhead(u, at, v, to) && at <= s && MatchesAt(u, s, key)
    ensures s - at + to + |key| <= |v|
    ensures SiteAt(v, key, s - at + to) == Move(SiteAt(u, key, s), at, to)
  {
    SameTail(u, v, at, to);
    MatchStartsWithWordByte(u, s, key);
    if s > at {
      ByteMoves(u, v, at, to, s - 1);
    }
    SiteMoves(u, v, at, to, key, s);
  }

  /** Further on, the byte behind the scan position is part of the common text. */
  lemma SameFurtherAhead(u: string, at: nat, v: string, to: nat, p: nat)
    requires SameAhead(u, at, v, to) && at < p <= |u|
    ensures SameAhead(u, p, v, p - at + to)
    ensures u[at..p] == v[to..p - at + to]
  {
    TailsFrom(u, v, at, to, p);
    ByteMoves(u, v, at, to, p - 1);
    assert u[at..p] == u[at..][..p - at] && v[to..p - at + to] == v[to..][..p - at];
  }

  lemma CopyUpToMoves(u: string, at: nat, v: string, to: nat, keyEnd: nat, site: Site)
    requires SameAhead(u, at, v, to) && at < keyEnd <= |u|
    requires site.Assigned? ==> keyEnd <= site.separator < site.cursor <= site.end <= |u|
    ensures keyEnd - at + to <= |v|
    ensures site.Assigned? ==> site.end - at + to <= |v|
    ensures var here, there := CopyUpTo(u, at, keyEnd, site), CopyUpTo(v, to, keyEnd - at + to, Move(site, at, to));
            && here.0 == there.0 && here.1 - at + to == there.1
            && SameAhead(u, here.1, v, there.1)
  {
    SameTail(u, v, at, to);
    hide SameAhead;
    match site {
      case Plain => SameFurtherAhead(u, at, v, to, keyEnd);
      case Assigned(_, cursor, end) =>
        SameFurtherAhead(u, at, v, to, cursor);
        SameFurtherAhead(u, at, v, to, end);
    }
  }

  lemma CopySiteMoves(u: string, at: nat, v: string, to: nat, key: string, start: nat)
    requires IsKey(key) && SameAhead(u, at, v, to) && at <= start && MatchesAt(u, start, key)
    ensures start - at + to + |key| <= |v|
    ensures var here, there := CopySite(u, key, at, start), CopySite(v, key, to, start - at + to);
            && here.0 == there.0 && here.1 - at + to == there.1
            && SameAhead(u, here.1, v, there.1)
  {
    SiteAhead(u, at, v, to, key, start);
    hide SiteAt, MatchesAt, SameAhead;
    CopyUpToMoves(u, at, v, to, start + |key|, SiteAt(u, key, start));
  }

  lemma CopyUnfolds(text: string, key: string, from: nat, start: nat)
    requires from <= |text| && |key| > 0 && FindFrom(text, key, from) == Some(start)
    ensures var piece := CopySite(text, key, from, start);
            CopyRedacted(text, key, from) == piece.0 + CopyRedacted(text, key, piece.1)
  {
  }

  /** The copy of the text ahead does not depend on what lies behind the scan position. */
  lemma {:induction false} CopyMoves(u: string, at: nat, v: string, to: nat, key: string)
    requires IsKey(key) && SameAhead(u, at, v, to)
    ensures CopyRedacted(u, key, at) == CopyRedacted(v, key, to)
    decreases |u| - at
  {
    hide CopySite;
    FindMoves(u, at, v, to, key);
    FindsFirst(u, key, at);
    if FindFrom(u, key, at).Some? {
      var start := FindFrom(u, key, at).value;
      CopyUnfolds(u, key, at, start);
      CopyUnfolds(v, key, to, start - at + to);
      CopySiteMoves(u, at, v, to, key, start);
      hide CopyRedacted, MatchesAt, SameAhead, IsKey;
      CopyMoves(u, CopySite(u, key, at, start).1, v, CopySite(v, key, to, start - at + to).1, key);
    }
  }

  /** One iteration of the pass and one step of the copy produce the same text and see the same rest. */
  lemma StepIsCopy(text: string, key: string, from: nat, start: nat)
    requires IsKey(key) && from <= start && MatchesAt(text, start, key)
    ensures var next, piece := RewriteSite(text, key, start), CopySite(text, key, from, start);
            && next.text[..next.from] == text[..from] + piece.0
            && SameAhead(next.text, next.from, text, piece.1)
  {
    var site := SiteAt(text, key, start);
    if NeedsMark(site) {
      ValueEndsOutsideWords(text, key, start);
      hide SiteAt, MatchesAt, IsKey;
      MarkIsCopy(text, from, site.cursor, site.end);
    } else {
      hide SiteAt, MatchesAt, IsKey;
      PlainIsCopy(text, from, if site.Plain? then start + |key| else site.cursor);
    }
  }

  lemma PlainIsCopy(text: string, from: nat, next: nat)
    requires from < next <= |text|
    ensures text[..next] == text[..from] + text[from..next]
    ensures SameAhead(text, next, text, next)
  {
  }

  lemma MarkIsCopy(text: string, from: nat, cursor: nat, end: nat)
    requires from <= cursor <= end <= |text| && (end < |text| ==> !IsWordByte(text[end]))
    ensures var marked := Mark(text, cursor, end);
            && marked[..cursor + |REDACTED|] == text[..from] + (text[from..cursor] + REDACTED)
            && SameAhead(marked, cursor + |REDACTED|, text, end)
  {
    MarkParts(text, cursor, end);
    var marked := Mark(text, cursor, end);
    assert end < |text| ==> marked[cursor + |REDACTED|..][0] == text[end..][0];
  }

  /**
   The in-place pass computes the copy: what it leaves behind is the original
   text, in order, with exactly the assigned values replaced.
   */
  lemma {:induction false} PassIsCopy(text: string, key: string, from: nat)
    requires IsKey(key) && from <= |text|
    ensures RedactAssignmentFrom(text, key, from) == text[..from] + CopyRedacted(text, key, from)
    decreases |text| - from
  {
    FindsFirst(text, key, from);
    if FindFrom(text, key, from).Some? {
      var start := FindFrom(text, key, from).value;
      StepIsCopy(text, key, from, start);
      CopyUnfolds(text, key, from, start);
      var next, piece := RewriteSite(text, key, start), CopySite(text, key, from, start);
      hide RewriteSite, CopySite, MatchesAt, SameAhead, IsKey;
      PassIsCopy(next.text, key, next.from);
      CopyMoves(next.text, next.from, text, piece.1, key);
      Regroup(text[..from], piece.0, CopyRedacted(text, key, piece.1));
    }
  }

  lemma ValueEndsOutsideWords(text: string, key: string, start: nat)
    requires start + |key| <= |text| && SiteAt(text, key, start).Assigned?
    ensures var end := SiteAt(text, key, start).end;
            end < |text| ==> !IsWordByte(text[end])
  {
    hide Seek;
    var site := SiteAt(text, key, start);
    var quote := OpeningQuote(text, site.separator).1;
    SeeksFirst(text, site.cursor, if quote.Some? then Exactly(quote.value) else SpaceCommaSemicolon);
    if MatchesAt(text, site.cursor, BEARER) {
      SeeksFirst(text, site.cursor + |BEARER|, SpaceCommaSemicolonQuote);
    }
  }
}
