/**
 How one assignment site of the redactor behaves under edits further right.
 These are the building blocks for the theorems of `RedactorTheorems`.
 */
module RedactorSites {
  import opened Wrappers
  import opened AsciiText
  import opened Redactor

  /** `pattern` cannot sit at offset `at` of `text`: one of its first three bytes differs there. */
  predicate Clash(text: string, at: nat, pattern: string)
    requires |pattern| >= 3
  {
    || (at < |text| && Fold(text[at]) != Fold(pattern[0]))
    || (at + 1 < |text| && Fold(text[at + 1]) != Fold(pattern[1]))
    || (at + 2 < |text| && Fold(text[at + 2]) != Fold(pattern[2]))
  }

  predicate IsWord(needle: string) {
    forall k :: 0 <= k < |needle| ==> IsWordByte(needle[k])
  }

  /** No occurrence can start inside the marker. */
  predicate NotInMarker(needle: string)
    requires |needle| >= 3
  {
    forall i :: 0 <= i < |REDACTED| ==> Clash(REDACTED, i, needle)
  }

  predicate Unbordered(key: string)
    requires |key| >= 3
  {
    forall d :: 0 < d < |key| ==> Clash(key, d, key)
  }

  /** A marker written into the line makes no occurrence of the text, neither in it nor across its ends. */
  predicate StaysOut(needle: string) {
    && |needle| >= 3 && NotInMarker(needle)
    && forall k :: 0 <= k < |needle| ==> needle[k] != '['
  }

  /** What the passes rely on about a key or token prefix. */
  predicate IsNeedle(needle: string) {
    |needle| >= 3 && IsWord(needle) && NotInMarker(needle)
  }

  /** A key, moreover, does not overlap itself. */
  predicate IsKey(key: string) {
    IsNeedle(key) && Unbordered(key)
  }

  lemma KeyFacts(i: nat)
    requires i < |SENSITIVE_KEYS|
    ensures IsKey(SENSITIVE_KEYS[i])
  {
    KeysAreWords(i);
    KeysNotInMarker(i);
    KeysUnbordered(i);
  }

  lemma KeysAreWords(i: nat)
    requires i < |SENSITIVE_KEYS|
    ensures |SENSITIVE_KEYS[i]| >= 3 && IsWord(SENSITIVE_KEYS[i])
  {
  }

  lemma KeysNotInMarker(i: nat)
    requires i < |SENSITIVE_KEYS|
    ensures |SENSITIVE_KEYS[i]| >= 3 && NotInMarker(SENSITIVE_KEYS[i])
  {
  }

  lemma KeysUnbordered(i: nat)
    requires i < |SENSITIVE_KEYS|
    ensures |SENSITIVE_KEYS[i]| >= 3 && Unbordered(SENSITIVE_KEYS[i])
  {
    if i < 5 { FirstKeysUnbordered(i); } else { LastKeysUnbordered(i); }
  }

  lemma FirstKeysUnbordered(i: nat)
    requires i < 5
    ensures |SENSITIVE_KEYS[i]| >= 3 && Unbordered(SENSITIVE_KEYS[i])
  {
  }

  lemma LastKeysUnbordered(i: nat)
    requires 5 <= i < |SENSITIVE_KEYS|
    ensures |SENSITIVE_KEYS[i]| >= 3 && Unbordered(SENSITIVE_KEYS[i])
  {
  }

  lemma PrefixFacts(i: nat)
    requires i < |TOKEN_PREFIXES|
    ensures IsNeedle(TOKEN_PREFIXES[i])
    ensures Fold(TOKEN_PREFIXES[i][0]) == 'g'
  {
  }

  lemma KeysApart(i: nat, j: nat)
    requires i < |SENSITIVE_KEYS| && j < |SENSITIVE_KEYS| && i != j
    ensures |SENSITIVE_KEYS[i]| >= 3 && Clash(SENSITIVE_KEYS[j], 0, SENSITIVE_KEYS[i])
  {
  }

  lemma NeedleStaysOut(needle: string)
    requires IsNeedle(needle)
    ensures StaysOut(needle)
  {
    hide NotInMarker;
    forall k | 0 <= k < |needle| ensures needle[k] != '[' {
      assert IsWordByte(needle[k]);
    }
  }

  lemma MatchByte(text: string, at: nat, needle: string, k: nat)
    requires MatchesAt(text, at, needle) && k < |needle|
    ensures at + k < |text| && Fold(text[at + k]) == Fold(needle[k])
  {
  }

  lemma MatchEnds(text: string, s: nat, needle: string)
    requires MatchesAt(text, s, needle)
    ensures s + |needle| <= |text|
  {
  }

  /** Two matches that overlap agree on the overlap. */
  lemma Overlap(text: string, at: nat, window: string, s: nat, needle: string)
    requires MatchesAt(text, at, window) && at <= s && |needle| >= 3
    requires MatchesAt(text, s, needle)
    ensures !Clash(window, s - at, needle)
  {
    var d := s - at;
    MatchByte(text, s, needle, 0);
    MatchByte(text, s, needle, 1);
    MatchByte(text, s, needle, 2);
    if d < |window| { MatchByte(text, at, window, d); }
    if d + 1 < |window| { MatchByte(text, at, window, d + 1); }
    if d + 2 < |window| { MatchByte(text, at, window, d + 2); }
  }

  lemma NoMatchInside(text: string, at: nat, window: string, s: nat, needle: string)
    requires MatchesAt(text, at, window) && at <= s && |needle| >= 3
    requires Clash(window, s - at, needle)
    ensures !MatchesAt(text, s, needle)
  {
    if MatchesAt(text, s, needle) {
      Overlap(text, at, window, s, needle);
    }
  }

  lemma NoMatchInMarker(text: string, at: nat, s: nat, needle: string)
    requires at + |REDACTED| <= |text| && text[at..at + |REDACTED|] == REDACTED
    requires at <= s < at + |REDACTED| && |needle| >= 3 && NotInMarker(needle)
    ensures !MatchesAt(text, s, needle)
  {
    forall k | 0 <= k < |REDACTED| ensures Fold(text[at + k]) == Fold(REDACTED[k]) {
      assert text[at..at + |REDACTED|][k] == text[at + k];
    }
    NoMatchInside(text, at, REDACTED, s, needle);
  }

  /** One byte that differs is enough. */
  lemma NoMatchBy(text: string, s: nat, needle: string, k: nat)
    requires k < |needle| && (s + |needle| <= |text| ==> Fold(text[s + k]) != Fold(needle[k]))
    ensures !MatchesAt(text, s, needle)
  {
  }

  /** A match starts with a word byte. */
  lemma MatchStartsWithWordByte(text: string, s: nat, needle: string)
    requires IsNeedle(needle) && MatchesAt(text, s, needle)
    ensures IsWordByte(text[s])
  {
    assert Fold(text[s + 0]) == Fold(needle[0]) && IsWordByte(needle[0]);
  }

  /** The last byte position that decides what the occurrence at `start` means. */
  function Lookahead(text: string, key: string, start: nat): (p: nat)
    requires start + |key| <= |text|
    ensures start <= p <= |text|
  {
    if start > 0 && IsWordByte(text[start - 1]) then start
    else match SiteAt(text, key, start)
      case Plain => Seek(text, start + |key|, NotSpaceOrQuote)
      case Assigned(_, _, end) => end
  }

  lemma ValueEndKept(text: string, r: string, key: string, quote: Option<char>, cursor: nat)
    requires cursor <= |text| && (quote.Some? ==> IsQuote(quote.value))
    requires AgreeThrough(text, r, ValueEnd(text, key, quote, cursor))
    ensures ValueEnd(r, key, quote, cursor) == ValueEnd(text, key, quote, cursor)
  {
    var end := ValueEnd(text, key, quote, cursor);
    assert forall k :: 0 <= k < end ==> text[k] == text[..end][k] == r[..end][k] == r[k];
    if key == AUTHORIZATION && MatchesAt(text, cursor, BEARER) {
      forall k | 0 <= k < |BEARER| ensures Fold(r[cursor + k]) == Fold(BEARER[k]) {
        MatchByte(text, cursor, BEARER, k);
      }
      SeekAgrees(text, r, cursor + |BEARER|, SpaceCommaSemicolonQuote);
    } else {
      var stop := if quote.Some? then Exactly(quote.value) else SpaceCommaSemicolon;
      SeeksFirst(text, cursor, stop);
      if MatchesAt(r, cursor, BEARER) {
        if end < cursor + |BEARER| {
          assert Fold(r[cursor + (end - cursor)]) == Fold(BEARER[end - cursor]);
          assert end == cursor + 6;
        }
        forall k | 0 <= k < |BEARER| ensures Fold(text[cursor + k]) == Fold(BEARER[k]) {
          assert Fold(r[cursor + k]) == Fold(BEARER[k]);
        }
      }
      SeekAgrees(text, r, cursor, stop);
    }
  }

  lemma AgreeEarlier(u: string, v: string, p: nat, q: nat)
    requires q <= p && AgreeThrough(u, v, p)
    ensures AgreeThrough(u, v, q)
  {
    assert u[..q] == u[..p][..q] && v[..q] == v[..p][..q];
    if q < p {
      assert u[..p][q] == v[..p][q];
    }
  }

  lemma ValueKept(text: string, r: string, key: string, separator: nat)
    requires separator < |text| && separator < |r|
    requires AgreeThrough(text, r, ValueBehind(text, key, separator).end)
    ensures ValueBehind(r, key, separator) == ValueBehind(text, key, separator)
  {
    var (open, quote) := OpeningQuote(text, separator);
    AgreeEarlier(text, r, ValueBehind(text, key, separator).end, open);
    SeekAgrees(text, r, separator + 1, NotSpace);
    ValueEndKept(text, r, key, quote, if quote.Some? then open + 1 else open);
  }

  lemma SiteKept(text: string, r: string, key: string, start: nat)
    requires |key| > 0 && start + |key| <= |text| && start + |key| <= |r|
    requires AgreeThrough(text, r, Lookahead(text, key, start))
    ensures SiteAt(r, key, start) == SiteAt(text, key, start)
  {
    hide MatchesAt, Seek, ValueEnd;
    var p := Lookahead(text, key, start);
    if start > 0 {
      assert text[..p][start - 1] == r[..p][start - 1];
    }
    if !(start > 0 && IsWordByte(text[start - 1])) {
      var separator := Seek(text, start + |key|, NotSpaceOrQuote);
      AgreeEarlier(text, r, p, separator);
      SeekAgrees(text, r, start + |key|, NotSpaceOrQuote);
      if SiteAt(text, key, start).Assigned? {
        ValueKept(text, r, key, separator);
      }
    }
  }

  /** The marker stands where the value of `site` stood; everything before it is as it was. */
  ghost predicate Marked(text: string, r: string, site: Site) {
    && site.Assigned? && site.cursor <= |text|
    && site.cursor + |REDACTED| <= |r|
    && r[..site.cursor] == text[..site.cursor]
    && r[site.cursor..site.cursor + |REDACTED|] == REDACTED
  }

  lemma MarkedByte(text: string, r: string, site: Site, k: nat)
    requires Marked(text, r, site) && k < |REDACTED|
    ensures r[site.cursor + k] == REDACTED[k]
  {
    assert r[site.cursor..site.cursor + |REDACTED|][k] == r[site.cursor + k];
  }

  /** The marker holds no byte that ends a value. */
  lemma MarkerIsOneValue(text: string, r: string, key: string, quote: Option<char>, site: Site)
    requires Marked(text, r, site) && (quote.Some? ==> IsQuote(quote.value))
    ensures var stop := if quote.Some? then Exactly(quote.value) else SpaceCommaSemicolon;
            ValueEnd(r, key, quote, site.cursor) == Seek(r, site.cursor + |REDACTED|, stop)
  {
    var c := site.cursor;
    MarkedByte(text, r, site, 0);
    assert !MatchesAt(r, c, BEARER) by {
      assert Fold(r[c + 0]) != Fold(BEARER[0]);
    }
    var stop := if quote.Some? then Exactly(quote.value) else SpaceCommaSemicolon;
    forall k | c <= k < c + |REDACTED| ensures !Stops(stop, r[k]) {
      MarkedByte(text, r, site, k - c);
    }
    SeekSkips(r, c, c + |REDACTED|, stop);
  }

  lemma SeekSkips(text: string, from: nat, to: nat, stop: Stop)
    requires from <= to <= |text|
    requires forall k :: from <= k < to ==> !Stops(stop, text[k])
    ensures Seek(text, from, stop) == Seek(text, to, stop)
  {
    SeeksFirst(text, to, stop);
    SeekIs(text, from, stop, Seek(text, to, stop));
  }

  lemma MarkedQuote(text: string, r: string, key: string, separator: nat)
    requires separator < |text|
    requires var site := ValueBehind(text, key, separator);
             Marked(text, r, site) && site.cursor < site.end
    ensures OpeningQuote(r, separator) == OpeningQuote(text, separator)
  {
    var site := ValueBehind(text, key, separator);
    var (open, quote) := OpeningQuote(text, separator);
    if quote.Some? {
      AgreeBelow(text, r, site.cursor, open);
      SeekAgrees(text, r, separator + 1, NotSpace);
    } else {
      MarkedByte(text, r, site, 0);
      SeeksFirst(text, separator + 1, NotSpace);
      assert forall k :: 0 <= k < site.cursor ==> text[k] == text[..site.cursor][k] == r[..site.cursor][k] == r[k];
      SeekIs(r, separator + 1, NotSpace, open);
    }
  }

  /** A value that was replaced by the marker reads back as the marker. */
  lemma MarkedSite(text: string, r: string, key: string, start: nat)
    requires |key| > 0 && start + |key| <= |text|
    requires Marked(text, r, SiteAt(text, key, start))
    requires SiteAt(text, key, start).cursor < SiteAt(text, key, start).end
    ensures var site, now := SiteAt(text, key, start), SiteAt(r, key, start);
            && now.Assigned?
            && now.separator == site.separator && now.cursor == site.cursor
            && site.cursor + |REDACTED| <= now.end
    ensures var site, now := SiteAt(text, key, start), SiteAt(r, key, start);
            key != AUTHORIZATION && AgreeBehind(text, site.end, r, site.cursor + |REDACTED|) ==>
              now.end == site.cursor + |REDACTED|
  {
    hide MatchesAt, Seek;
    var site := SiteAt(text, key, start);
    if start > 0 {
      assert text[..site.cursor][start - 1] == r[..site.cursor][start - 1];
    }
    AgreeBelow(text, r, site.cursor, site.separator);
    SeekAgrees(text, r, start + |key|, NotSpaceOrQuote);
    MarkedQuote(text, r, key, site.separator);
    var quote := OpeningQuote(text, site.separator).1;
    MarkerIsOneValue(text, r, key, quote, site);
    if key != AUTHORIZATION && AgreeBehind(text, site.end, r, site.cursor + |REDACTED|) {
      var stop := if quote.Some? then Exactly(quote.value) else SpaceCommaSemicolon;
      SeeksFirst(text, site.cursor, stop);
      SeekIs(r, site.cursor + |REDACTED|, stop, site.cursor + |REDACTED|);
    }
  }

  /** Directly behind both positions sits the same byte, or the end of both texts. */
  ghost predicate AgreeBehind(u: string, p: nat, v: string, q: nat) {
    && p <= |u| && q <= |v|
    && (p < |u| <==> q < |v|)
    && (p < |u| ==> u[p] == v[q])
  }

  lemma AgreeBelow(u: string, v: string, c: nat, p: nat)
    requires p < c <= |u| && c <= |v| && u[..c] == v[..c]
    ensures AgreeThrough(u, v, p)
  {
    assert u[..p] == u[..c][..p] && v[..p] == v[..c][..p];
    assert u[..c][p] == v[..c][p];
  }

  // ------------------------------------------------------------ moving a site

  lemma TailsFrom(u: string, v: string, at: nat, to: nat, p: nat)
    requires at <= p <= |u| && to <= |v| && u[at..] == v[to..]
    ensures p - at + to <= |v| && u[p..] == v[p - at + to..]
  {
    SameTail(u, v, at, to);
    assert u[p..] == u[at..][p - at..] && v[p - at + to..] == v[to..][p - at..];
  }

  lemma SeekMoves(u: string, v: string, at: nat, to: nat, from: nat, stop: Stop)
    requires at <= from <= |u| && to <= |v| && u[at..] == v[to..]
    ensures from - at + to <= |v|
    ensures Seek(v, from - at + to, stop) == Seek(u, from, stop) - at + to
  {
    TailsFrom(u, v, at, to, from);
    SeekShifts(u, v, from, from - at + to, stop);
  }

  lemma MatchMoves(u: string, v: string, at: nat, to: nat, s: nat, needle: string)
    requires at <= s <= |u| && to <= |v| && u[at..] == v[to..]
    ensures MatchesAt(u, s, needle) <==> MatchesAt(v, s - at + to, needle)
  {
    TailsFrom(u, v, at, to, s);
    MatchShifts(u, v, s, s - at + to, needle);
  }

  lemma FindMoves(u: string, at: nat, v: string, to: nat, needle: string)
    requires at <= |u| && to <= |v| && u[at..] == v[to..]
    ensures FindFrom(u, needle, at).None? ==> FindFrom(v, needle, to).None?
    ensures FindFrom(u, needle, at).Some? ==>
              FindFrom(v, needle, to) == Some(FindFrom(u, needle, at).value - at + to)
  {
    hide MatchesAt;
    FindsFirst(u, needle, at);
    FindsFirst(v, needle, to);
    SameTail(u, v, at, to);
    var p, q := FindFrom(u, needle, at), FindFrom(v, needle, to);
    if q.Some? {
      MatchMoves(u, v, at, to, q.value - to + at, needle);
    }
    if p.Some? {
      MatchMoves(u, v, at, to, p.value, needle);
    }
  }

  lemma ValueEndMoves(u: string, v: string, at: nat, to: nat, key: string, quote: Option<char>, cursor: nat)
    requires at <= cursor <= |u| && to <= |v| && u[at..] == v[to..]
    ensures cursor - at + to <= |v|
    ensures ValueEnd(v, key, quote, cursor - at + to) == ValueEnd(u, key, quote, cursor) - at + to
  {
    MatchMoves(u, v, at, to, cursor, BEARER);
    SeekMoves(u, v, at, to, cursor, if quote.Some? then Exactly(quote.value) else SpaceCommaSemicolon);
    if MatchesAt(u, cursor, BEARER) {
      SeekMoves(u, v, at, to, cursor + |BEARER|, SpaceCommaSemicolonQuote);
    }
  }

  /** `site`, with every position moved from the frame starting at `at` to the one starting at `to`. */
  function Move(site: Site, at: nat, to: nat): Site
    requires site.Assigned? ==> at <= site.separator && at <= site.cursor && at <= site.end
  {
    match site
    case Plain => Plain
    case Assigned(s, c, e) => Assigned(s - at + to, c - at + to, e - at + to)
  }

  lemma ValueMoves(u: string, v: string, at: nat, to: nat, key: string, separator: nat)
    requires at <= separator < |u| && to <= |v| && u[at..] == v[to..]
    ensures separator - at + to < |v|
    ensures ValueBehind(v, key, separator - at + to) == Move(ValueBehind(u, key, separator), at, to)
  {
    hide MatchesAt, Seek, ValueEnd;
    ByteMoves(u, v, at, to, separator);
    SeekMoves(u, v, at, to, separator + 1, NotSpace);
    var (open, quote) := OpeningQuote(u, separator);
    if open < |u| {
      ByteMoves(u, v, at, to, open);
    } else {
      SameTail(u, v, at, to);
    }
    assert OpeningQuote(v, separator - at + to) == (open - at + to, quote);
    ValueEndMoves(u, v, at, to, key, quote, if quote.Some? then open + 1 else open);
  }

  /** What an occurrence means depends only on the byte before it and on what follows. */
  lemma SiteMoves(u: string, v: string, at: nat, to: nat, key: string, s: nat)
    requires 0 < |key| && at <= s && s + |key| <= |u| && to <= |v| && u[at..] == v[to..]
    requires (s > 0 && IsWordByte(u[s - 1])) <==>
             (s - at + to > 0 && s - at + to - 1 < |v| && IsWordByte(v[s - at + to - 1]))
    ensures s - at + to + |key| <= |v|
    ensures SiteAt(v, key, s - at + to) == Move(SiteAt(u, key, s), at, to)
  {
    hide ValueBehind, MatchesAt, Seek;
    SameTail(u, v, at, to);
    if !(s > 0 && IsWordByte(u[s - 1])) {
      SeekMoves(u, v, at, to, s + |key|, NotSpaceOrQuote);
      var separator := Seek(u, s + |key|, NotSpaceOrQuote);
      if separator < |u| {
        ByteMoves(u, v, at, to, separator);
        ValueMoves(u, v, at, to, key, separator);
      }
    }
  }
}
