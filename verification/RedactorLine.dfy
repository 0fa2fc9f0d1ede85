/**
 What `redact_line` as a whole achieves. A later pass may rewrite text around
 the values an earlier pass has cleaned; none of them brings a value back.
 */
module RedactorLine {
  import opened AsciiText
  import opened Redactor
  import opened RedactorSites
  import opened RedactorTheorems
  import opened RedactorTwice

  /** No occurrence of `needle`, in any letter case. */
  ghost predicate Free(text: string, needle: string) {
    forall s: nat :: !MatchesAt(text, s, needle)
  }

  // ------------------------------------------------------------ one rewrite, seen from another key

  /** A rewrite starting at `cut` stays clear of the value at `site`. */
  predicate SparesSite(site: Site, tail: bool, cut: nat) {
    match site
    case Plain => true
    case Assigned(separator, cursor, end) =>
      || cut <= separator
      || end < cut
      || (tail && cursor < end && cursor + |REDACTED| <= cut)
  }

  ghost predicate Spares(text: string, key: string, tail: bool, cut: nat) {
    forall s: nat :: s + |key| <= cut && MatchesAt(text, s, key) ==> SparesSite(SiteAt(text, key, s), tail, cut)
  }

  predicate OutsideWord(text: string, at: nat) {
    at < |text| ==> !IsWordByte(text[at])
  }

  /** `m` is `text` up to `cut`, and the marker opens there. */
  ghost predicate OpensAt(text: string, m: string, cut: nat) {
    && cut <= |text| && cut + |REDACTED| <= |m|
    && m[..cut] == text[..cut]
    && m[cut..cut + |REDACTED|] == REDACTED
  }

  lemma OpensWithBracket(text: string, m: string, cut: nat)
    requires OpensAt(text, m, cut)
    ensures m[cut] == '['
  {
    assert m[cut..cut + |REDACTED|][0] == m[cut];
  }

  lemma MatchLeft(text: string, m: string, cut: nat, s: nat, needle: string)
    requires cut <= |text| && cut <= |m| && m[..cut] == text[..cut] && s + |needle| <= cut
    ensures MatchesAt(m, s, needle) <==> MatchesAt(text, s, needle)
  {
    forall k | 0 <= k < |needle| ensures Fold(m[s + k]) == Fold(needle[k]) <==> Fold(text[s + k]) == Fold(needle[k]) {
      assert m[..cut][s + k] == text[..cut][s + k];
    }
  }

  lemma MatchedByteIsWord(text: string, s: nat, needle: string, k: nat)
    requires IsNeedle(needle) && MatchesAt(text, s, needle) && k < |needle|
    ensures IsWordByte(text[s + k])
  {
    MatchByte(text, s, needle, k);
    assert IsWordByte(needle[k]);
  }

  /** It neither lies in the marker nor reaches into it. */
  lemma NoMatchAcross(text: string, m: string, cut: nat, s: nat, needle: string)
    requires StaysOut(needle) && OpensAt(text, m, cut)
    requires cut < s + |needle| && s < cut + |REDACTED|
    ensures !MatchesAt(m, s, needle)
  {
    if s < cut {
      OpensWithBracket(text, m, cut);
      assert needle[cut - s] != '[';
      NoMatchBy(m, s, needle, cut - s);
    } else {
      NoMatchInMarker(m, cut, s, needle);
    }
  }

  /** The separator scan stops at the marker. */
  lemma MarkerUnassigns(text: string, m: string, key: string, s: nat, cut: nat)
    requires |key| > 0 && s + |key| <= cut && OpensAt(text, m, cut)
    requires !(s > 0 && IsWordByte(text[s - 1])) && cut <= Seek(text, s + |key|, NotSpaceOrQuote)
    ensures SiteAt(m, key, s) == Plain
  {
    OpensWithBracket(text, m, cut);
    SeeksFirst(text, s + |key|, NotSpaceOrQuote);
    forall k | s + |key| <= k < cut ensures !Stops(NotSpaceOrQuote, m[k]) {
      assert m[..cut][k] == text[..cut][k];
    }
    SeekIs(m, s + |key|, NotSpaceOrQuote, cut);
  }

  lemma OkLeft(text: string, m: string, key: string, tail: bool, s: nat, cut: nat)
    requires |key| > 0 && s + |key| <= cut && OpensAt(text, m, cut)
    requires SiteOk(text, key, tail, s) && SparesSite(SiteAt(text, key, s), tail, cut)
    ensures SiteOk(m, key, tail, s)
  {
    hide Seek, MatchesAt, ValueBehind;
    if s > 0 {
      assert m[..cut][s - 1] == text[..cut][s - 1];
    }
    var p := Lookahead(text, key, s);
    if p < cut {
      AgreeBelow(text, m, cut, p);
      SiteKept(text, m, key, s);
      SameValue(text, m, cut, SiteAt(text, key, s));
    } else if s > 0 && IsWordByte(text[s - 1]) {
    } else if cut <= Seek(text, s + |key|, NotSpaceOrQuote) {
      MarkerUnassigns(text, m, key, s, cut);
    } else {
      OkTail(text, m, key, tail, s, cut);
    }
  }

  lemma SameValue(text: string, m: string, cut: nat, site: Site)
    requires cut <= |text| && cut <= |m| && m[..cut] == text[..cut]
    requires site.Assigned? ==> site.cursor <= site.end <= cut
    ensures site.Assigned? ==> m[site.cursor..site.end] == text[site.cursor..site.end]
    ensures site.Assigned? && site.cursor + |REDACTED| <= site.end ==>
              m[site.cursor..site.cursor + |REDACTED|] == text[site.cursor..site.cursor + |REDACTED|]
  {
    if site.Assigned? {
      SameSlice(text, m, cut, site.cursor, site.end);
      if site.cursor + |REDACTED| <= site.end {
        SameSlice(text, m, cut, site.cursor, site.cursor + |REDACTED|);
      }
    }
  }

  lemma SameSlice(u: string, v: string, p: nat, from: nat, to: nat)
    requires p <= |u| && p <= |v| && u[..p] == v[..p] && from <= to <= p
    ensures u[from..to] == v[from..to]
  {
    assert u[from..to] == u[..p][from..to] && v[from..to] == v[..p][from..to];
  }

  /** A rewrite in the tail of a value leaves its marker in front. */
  lemma OkTail(text: string, m: string, key: string, tail: bool, s: nat, cut: nat)
    requires |key| > 0 && s + |key| <= cut && OpensAt(text, m, cut)
    requires SiteOk(text, key, tail, s)
    requires var site := SiteAt(text, key, s);
             && site.Assigned? && tail
             && site.cursor < site.end && site.cursor + |REDACTED| <= cut
    ensures SiteOk(m, key, tail, s)
  {
    hide Seek, MatchesAt;
    var site := SiteAt(text, key, s);
    var c := site.cursor;
    if text[c..site.end] == REDACTED {
      assert |text[c..site.end]| == |REDACTED|;
    }
    SameSlice(text, m, cut, c, c + |REDACTED|);
    SameSlice(text, m, cut, 0, c);
    MarkedSite(text, m, key, s);
  }

  lemma ValueOkMoves(m: string, text: string, from: nat, end: nat, tail: bool, site: Site)
    requires from <= |m| && end <= |text| && m[from..] == text[end..] && site.Assigned?
    requires from <= site.separator < site.cursor <= site.end <= |m|
    ensures site.end - from + end <= |text|
    ensures ValueOk(text, tail, Move(site, from, end)) ==> ValueOk(m, tail, site)
  {
    SliceMoves(m, text, from, end, site.cursor, site.end);
    if site.cursor + |REDACTED| <= site.end {
      SliceMoves(m, text, from, end, site.cursor, site.cursor + |REDACTED|);
    }
  }

  lemma SliceMoves(u: string, v: string, at: nat, to: nat, p: nat, q: nat)
    requires at <= p <= q <= |u| && to <= |v| && u[at..] == v[to..]
    ensures q - at + to <= |v|
    ensures u[p..q] == v[p - at + to..q - at + to]
  {
    SameTail(u, v, at, to);
    forall i | 0 <= i < q - p ensures u[p..q][i] == v[p - at + to..q - at + to][i] {
      ByteMoves(u, v, at, to, p + i);
    }
  }

  lemma SiteMovesRight(text: string, m: string, key: string, s: nat, from: nat, end: nat)
    requires IsKey(key) && end <= |text| && from <= |m| && m[from..] == text[end..] && OutsideWord(text, end)
    requires from <= s && MatchesAt(m, s, key)
    ensures s - from + end + |key| <= |text|
    ensures SiteAt(text, key, s - from + end) == Move(SiteAt(m, key, s), from, end)
  {
    MatchStartsWithWordByte(m, s, key);
    ByteMoves(m, text, from, end, s);
    ByteMoves(m, text, from, end, s - 1);
    SiteMoves(m, text, from, end, key, s);
  }

  lemma OkRight(text: string, m: string, key: string, tail: bool, s: nat, from: nat, end: nat)
    requires IsKey(key) && end <= |text| && from <= |m| && m[from..] == text[end..] && OutsideWord(text, end)
    requires Clean(text, key, tail, 0) && from <= s && MatchesAt(m, s, key)
    ensures SiteOk(m, key, tail, s)
  {
    assert |key| > 0;
    MatchMoves(m, text, from, end, s, key);
    assert SiteOk(text, key, tail, s - from + end);
    SiteMovesRight(text, m, key, s, from, end);
    var site := SiteAt(m, key, s);
    hide SiteAt, IsKey, MatchesAt;
    if site.Assigned? {
      ValueOkMoves(m, text, from, end, tail, site);
    }
  }

  /** The rewrite that later passes make: clear of the values of `key`, and up to the end of a word. */
  lemma MarkStaysClean(text: string, key: string, tail: bool, cut: nat, end: nat)
    requires IsKey(key) && cut <= end <= |text| && OutsideWord(text, end)
    requires Clean(text, key, tail, 0) && Spares(text, key, tail, cut)
    ensures Clean(Mark(text, cut, end), key, tail, 0)
  {
    var m := Mark(text, cut, end);
    MarkParts(text, cut, end);
    hide Mark;
    forall s: nat | MatchesAt(m, s, key) ensures SiteOk(m, key, tail, s) {
      MarkSiteStaysClean(text, m, key, tail, cut, end, s);
    }
  }

  lemma MarkSiteStaysClean(text: string, m: string, key: string, tail: bool, cut: nat, end: nat, s: nat)
    requires IsKey(key) && cut <= end <= |text| && OutsideWord(text, end)
    requires Clean(text, key, tail, 0) && Spares(text, key, tail, cut)
    requires OpensAt(text, m, cut) && m[cut + |REDACTED|..] == text[end..]
    requires MatchesAt(m, s, key)
    ensures SiteOk(m, key, tail, s)
  {
    if s + |key| <= cut {
      MatchLeft(text, m, cut, s, key);
      OkLeft(text, m, key, tail, s, cut);
    } else if s < cut + |REDACTED| {
      NeedleStaysOut(key);
      NoMatchAcross(text, m, cut, s, key);
    } else {
      OkRight(text, m, key, tail, s, cut + |REDACTED|, end);
    }
  }

  // ------------------------------------------------------------ why each pass stays clear of cleaned values

  /** The bytes of a cleaned, non-empty value start with the marker. */
  lemma ValueBytes(text: string, tail: bool, site: Site)
    requires site.Assigned? && site.cursor < site.end <= |text| && ValueOk(text, tail, site)
    ensures site.cursor + |REDACTED| <= site.end
    ensures forall q :: site.cursor <= q < site.cursor + |REDACTED| ==> text[q] == REDACTED[q - site.cursor]
    ensures !tail ==> site.end == site.cursor + |REDACTED|
  {
    var c := site.cursor;
    if text[c..site.end] == REDACTED {
      assert |text[c..site.end]| == |REDACTED|;
    }
    forall q | c <= q < c + |REDACTED| ensures text[q] == REDACTED[q - c] {
      assert text[c..c + |REDACTED|][q - c] == text[q];
    }
  }

  /** A cut at a token prefix: the marker holds no letter g. */
  lemma PrefixSpares(text: string, key: string, tail: bool, cut: nat)
    requires IsKey(key) && Clean(text, key, tail, 0) && cut < |text| && Fold(text[cut]) == 'g'
    ensures Spares(text, key, tail, cut)
  {
    forall s: nat | s + |key| <= cut && MatchesAt(text, s, key) ensures SparesSite(SiteAt(text, key, s), tail, cut) {
      assert SiteOk(text, key, tail, s);
      PrefixSparesSite(text, key, tail, s, cut);
    }
  }

  lemma PrefixSparesSite(text: string, key: string, tail: bool, s: nat, cut: nat)
    requires |key| > 0 && s + |key| <= cut < |text| && SiteOk(text, key, tail, s) && Fold(text[cut]) == 'g'
    ensures SparesSite(SiteAt(text, key, s), tail, cut)
  {
    hide Seek, MatchesAt, OpeningQuote;
    var site := SiteAt(text, key, s);
    if site.Assigned? && site.separator < cut <= site.end {
      GapHoldsNoWord(text, key, s);
      ValueEndsOutsideWords(text, key, s);
      hide SiteAt;
      ValueBytes(text, tail, site);
    }
  }

  /** A cut behind a space behind a word: the marker holds no space. */
  lemma BearerSpares(text: string, key: string, tail: bool, cut: nat)
    requires IsKey(key) && Clean(text, key, tail, 0) && 2 <= cut <= |text|
    requires text[cut - 1] == ' ' && IsWordByte(text[cut - 2])
    ensures Spares(text, key, tail, cut)
  {
    forall s: nat | s + |key| <= cut && MatchesAt(text, s, key) ensures SparesSite(SiteAt(text, key, s), tail, cut) {
      assert SiteOk(text, key, tail, s);
      BearerSparesSite(text, key, tail, s, cut);
    }
  }

  lemma BearerSparesSite(text: string, key: string, tail: bool, s: nat, cut: nat)
    requires |key| > 0 && s + |key| <= cut <= |text| && SiteOk(text, key, tail, s)
    requires 2 <= cut && text[cut - 1] == ' ' && IsWordByte(text[cut - 2])
    ensures SparesSite(SiteAt(text, key, s), tail, cut)
  {
    hide Seek, MatchesAt, OpeningQuote;
    var site := SiteAt(text, key, s);
    if site.Assigned? && site.separator < cut <= site.end {
      SeparatorByte(text, key, s);
      GapHoldsNoWord(text, key, s);
      hide SiteAt;
      NoSpaceInMarker(text, tail, site);
    }
  }

  lemma NoSpaceInMarker(text: string, tail: bool, site: Site)
    requires site.Assigned? && site.cursor <= site.end <= |text| && ValueOk(text, tail, site)
    ensures site.cursor < site.end ==>
              && site.cursor + |REDACTED| <= site.end
              && (!tail ==> site.end == site.cursor + |REDACTED|)
              && forall q :: site.cursor <= q < site.cursor + |REDACTED| ==> text[q] != ' '
  {
    if site.cursor < site.end {
      ValueBytes(text, tail, site);
    }
  }

  lemma SeparatorByte(text: string, key: string, s: nat)
    requires |key| > 0 && s + |key| <= |text| && SiteAt(text, key, s).Assigned?
    ensures var p := SiteAt(text, key, s).separator; text[p] == '=' || text[p] == ':'
  {
  }

  /** The value of another key: its key would have to start inside the cleaned value. */
  lemma KeySpares(text: string, key: string, tail: bool, other: string, start: nat)
    requires IsKey(key) && IsKey(other) && Clash(other, 0, key)
    requires Clean(text, key, tail, 0) && MatchesAt(text, start, other) && NeedsMark(SiteAt(text, other, start))
    ensures Spares(text, key, tail, SiteAt(text, other, start).cursor)
  {
    var cut := SiteAt(text, other, start).cursor;
    forall s: nat | s + |key| <= cut && MatchesAt(text, s, key) ensures SparesSite(SiteAt(text, key, s), tail, cut) {
      assert SiteOk(text, key, tail, s);
      if start <= s {
        KeyBehind(text, key, other, start, s);
      } else {
        KeyBefore(text, key, tail, other, start, s);
      }
    }
  }

  lemma KeyBehind(text: string, key: string, other: string, start: nat, s: nat)
    requires IsKey(key) && IsKey(other) && Clash(other, 0, key)
    requires MatchesAt(text, start, other) && NeedsMark(SiteAt(text, other, start))
    requires MatchesAt(text, s, key) && start <= s < SiteAt(text, other, start).cursor
    ensures SiteAt(text, key, s) == Plain
  {
    if s == start {
      NoMatchInside(text, start, other, s, key);
    } else if s < start + |other| {
      MatchedByteIsWord(text, start, other, s - 1 - start);
    } else {
      GapHoldsNoWord(text, other, start);
      MatchStartsWithWordByte(text, s, key);
    }
  }

  lemma KeyBefore(text: string, key: string, tail: bool, other: string, start: nat, s: nat)
    requires IsKey(key) && IsKey(other)
    requires MatchesAt(text, start, other) && NeedsMark(SiteAt(text, other, start))
    requires MatchesAt(text, s, key) && s < start && SiteOk(text, key, tail, s)
    ensures SparesSite(SiteAt(text, key, s), tail, SiteAt(text, other, start).cursor)
  {
    var site, cut := SiteAt(text, key, s), SiteAt(text, other, start).cursor;
    if start < s + |key| {
      MatchedByteIsWord(text, s, key, start - 1 - s);
    } else if site.Assigned? && site.separator < cut <= site.end {
      MatchStartsWithWordByte(text, start, other);
      GapHoldsNoWord(text, key, s);
      hide IsKey, MatchesAt, Seek, OpeningQuote;
      MatchBehindMarker(text, tail, site, other, start);
    }
  }

  /** A match inside a cleaned value starts behind the marker. */
  lemma MatchBehindMarker(text: string, tail: bool, site: Site, other: string, start: nat)
    requires site.Assigned? && site.cursor <= start < site.end <= |text| && ValueOk(text, tail, site)
    requires IsKey(other) && MatchesAt(text, start, other)
    ensures tail && site.cursor + |REDACTED| <= start
  {
    ValueBytes(text, tail, site);
    if start < site.cursor + |REDACTED| {
      assert text[site.cursor..site.cursor + |REDACTED|] == REDACTED;
      NoMatchInMarker(text, site.cursor, start, other);
    }
  }

  // ------------------------------------------------------------ later passes keep a key clean

  lemma {:induction false} KeyPassKeeps(text: string, other: string, from: nat, key: string, tail: bool)
    requires IsKey(key) && IsKey(other) && Clash(other, 0, key)
    requires from <= |text| && Clean(text, key, tail, 0)
    ensures Clean(RedactAssignmentFrom(text, other, from), key, tail, 0)
    decreases |text| - from
  {
    FindsFirst(text, other, from);
    if FindFrom(text, other, from).Some? {
      var start := FindFrom(text, other, from).value;
      RewriteKeepsClean(text, other, start, key, tail);
      var next := RewriteSite(text, other, start);
      hide RewriteSite, Clean, IsKey, Clash, MatchesAt;
      KeyPassKeeps(next.text, other, next.from, key, tail);
    }
  }

  lemma RewriteKeepsClean(text: string, other: string, start: nat, key: string, tail: bool)
    requires IsKey(key) && IsKey(other) && Clash(other, 0, key)
    requires MatchesAt(text, start, other) && Clean(text, key, tail, 0)
    ensures Clean(RewriteSite(text, other, start).text, key, tail, 0)
  {
    var site := SiteAt(text, other, start);
    if NeedsMark(site) {
      KeySpares(text, key, tail, other, start);
      ValueEndsOutsideWords(text, other, start);
      MarkStaysClean(text, key, tail, site.cursor, site.end);
    }
  }

  lemma {:induction false} BearerPassKeeps(text: string, from: nat, key: string, tail: bool)
    requires IsKey(key) && Clean(text, key, tail, 0)
    ensures var r := RedactBearerFrom(text, from); r.Some? ==> Clean(r.value, key, tail, 0)
    decreases |text| - from
  {
    if from <= |text| {
      FindsFirst(text, BEARER, from);
      if FindFrom(text, BEARER, from).Some? {
        var start := FindFrom(text, BEARER, from).value;
        BearerKeepsClean(text, start, key, tail);
        var next := RewriteBearer(text, start);
        hide RewriteBearer, Clean, IsKey, MatchesAt;
        BearerPassKeeps(next.text, next.from, key, tail);
      }
    }
  }

  lemma BearerKeepsClean(text: string, start: nat, key: string, tail: bool)
    requires IsKey(key) && Clean(text, key, tail, 0) && MatchesAt(text, start, BEARER)
    ensures Clean(RewriteBearer(text, start).text, key, tail, 0)
  {
    var token := start + |BEARER|;
    BearerEndsInSpace(text, start);
    var end := Seek(text, token, SpaceCommaSemicolonQuote);
    SeeksFirst(text, token, SpaceCommaSemicolonQuote);
    BearerSpares(text, key, tail, token);
    hide Clean, IsKey, Spares, MatchesAt, Mark;
    MarkStaysClean(text, key, tail, token, end);
  }

  lemma BearerEndsInSpace(text: string, start: nat)
    requires MatchesAt(text, start, BEARER)
    ensures var token := start + |BEARER|;
            token <= |text| && text[token - 1] == ' ' && IsWordByte(text[token - 2])
  {
    MatchByte(text, start, BEARER, 5);
    MatchByte(text, start, BEARER, 6);
  }

  lemma {:induction false} PrefixPassKeeps(text: string, prefix: string, from: nat, key: string, tail: bool)
    requires IsKey(key) && Clean(text, key, tail, 0)
    requires StartsToken(prefix) && Fold(prefix[0]) == 'g' && from <= |text|
    ensures Clean(RedactPrefixFrom(text, prefix, from), key, tail, 0)
    decreases |text| - from
  {
    FindsFirst(text, prefix, from);
    if FindFrom(text, prefix, from).Some? {
      var start := FindFrom(text, prefix, from).value;
      MatchByte(text, start, prefix, 0);
      SeeksFirst(text, start, SpaceCommaSemicolonQuote);
      PrefixSpares(text, key, tail, start);
      MarkStaysClean(text, key, tail, start, Seek(text, start, SpaceCommaSemicolonQuote));
      var next := RewritePrefix(text, prefix, start);
      hide Mark, Clean, IsKey, MatchesAt;
      PrefixPassKeeps(next.text, prefix, next.from, key, tail);
    }
  }

  // ------------------------------------------------------------ token prefixes

  /** A rewrite never brings a needle back. */
  lemma MarkStaysFree(text: string, needle: string, cut: nat, end: nat)
    requires StaysOut(needle) && cut <= end <= |text| && Free(text, needle)
    ensures Free(Mark(text, cut, end), needle)
  {
    var m := Mark(text, cut, end);
    MarkParts(text, cut, end);
    hide Mark, StaysOut;
    forall s: nat ensures !MatchesAt(m, s, needle) {
      MarkSiteStaysFree(text, m, needle, cut, end, s);
    }
  }

  lemma MarkSiteStaysFree(text: string, m: string, needle: string, cut: nat, end: nat, s: nat)
    requires StaysOut(needle) && cut <= end <= |text|
    requires OpensAt(text, m, cut) && m[cut + |REDACTED|..] == text[end..]
    requires s + |needle| <= cut ==> !MatchesAt(text, s, needle)
    requires s >= cut + |REDACTED| ==> !MatchesAt(text, s - (cut + |REDACTED|) + end, needle)
    ensures !MatchesAt(m, s, needle)
  {
    if s + |needle| <= cut {
      MatchLeft(text, m, cut, s, needle);
    } else if s < cut + |REDACTED| {
      NoMatchAcross(text, m, cut, s, needle);
    } else if s <= |m| {
      MatchMoves(m, text, cut + |REDACTED|, end, s, needle);
    }
  }

  lemma {:induction false} KeyPassKeepsFree(text: string, key: string, from: nat, needle: string)
    requires |key| > 0 && from <= |text| && StaysOut(needle) && Free(text, needle)
    ensures Free(RedactAssignmentFrom(text, key, from), needle)
    decreases |text| - from
  {
    if FindFrom(text, key, from).Some? {
      var start := FindFrom(text, key, from).value;
      var next, site := RewriteSite(text, key, start), SiteAt(text, key, start);
      if NeedsMark(site) {
        MarkStaysFree(text, needle, site.cursor, site.end);
      }
      hide SiteAt, Free, StaysOut, Mark, MatchesAt;
      KeyPassKeepsFree(next.text, key, next.from, needle);
    }
  }

  lemma {:induction false} BearerPassKeepsFree(text: string, from: nat, needle: string)
    requires StaysOut(needle) && Free(text, needle) && RedactBearerFrom(text, from).Some?
    ensures Free(RedactBearerFrom(text, from).value, needle)
    decreases |text| - from
  {
    if FindFrom(text, BEARER, from).Some? {
      var start := FindFrom(text, BEARER, from).value;
      var next, token := RewriteBearer(text, start), start + |BEARER|;
      MarkStaysFree(text, needle, token, Seek(text, token, SpaceCommaSemicolonQuote));
      hide Seek, Free, StaysOut, Mark, MatchesAt;
      BearerPassKeepsFree(next.text, next.from, needle);
    }
  }

  lemma {:induction false} PrefixPassKeepsFree(text: string, prefix: string, from: nat, needle: string)
    requires StaysOut(needle) && StartsToken(prefix) && from <= |text| && Free(text, needle)
    ensures Free(RedactPrefixFrom(text, prefix, from), needle)
    decreases |text| - from
  {
    FindsFirst(text, prefix, from);
    if FindFrom(text, prefix, from).Some? {
      var start := FindFrom(text, prefix, from).value;
      var next := RewritePrefix(text, prefix, start);
      MarkStaysFree(text, needle, start, Seek(text, start, SpaceCommaSemicolonQuote));
      hide Mark, Free, StaysOut, MatchesAt;
      PrefixPassKeepsFree(next.text, prefix, next.from, needle);
    }
  }

  /** A prefix pass leaves no occurrence of its prefix behind. */
  lemma {:induction false} PrefixPassFrees(text: string, prefix: string, from: nat)
    requires IsNeedle(prefix) && StartsToken(prefix) && from <= |text|
    requires forall s: nat :: s < from ==> !MatchesAt(text, s, prefix)
    ensures Free(RedactPrefixFrom(text, prefix, from), prefix)
    decreases |text| - from
  {
    FindsFirst(text, prefix, from);
    if FindFrom(text, prefix, from).Some? {
      var start := FindFrom(text, prefix, from).value;
      var next := RewritePrefix(text, prefix, start);
      FreeSoFar(text, prefix, start, Seek(text, start, SpaceCommaSemicolonQuote));
      hide Mark, IsNeedle, MatchesAt;
      PrefixPassFrees(next.text, prefix, next.from);
    }
  }

  lemma FreeSoFar(text: string, prefix: string, start: nat, end: nat)
    requires IsNeedle(prefix) && start <= end <= |text|
    requires forall s: nat :: s < start ==> !MatchesAt(text, s, prefix)
    ensures forall s: nat :: s < start + |REDACTED| ==> !MatchesAt(Mark(text, start, end), s, prefix)
  {
    var m := Mark(text, start, end);
    MarkParts(text, start, end);
    NeedleStaysOut(prefix);
    hide Mark, IsNeedle, StaysOut;
    forall s: nat | s < start + |REDACTED| ensures !MatchesAt(m, s, prefix) {
      MarkSiteStaysFree(text, m, prefix, start, end, s);
    }
  }

  // ------------------------------------------------------------ the whole line

  /**
   The pass for the key may leave something behind a marker: only for
   `authorization`, and only if some value in the text that reaches its pass
   does not end where a plain value ends.
   */
  predicate Trails(line: string, i: nat)
    requires i < |SENSITIVE_KEYS|
  {
    SENSITIVE_KEYS[i] == AUTHORIZATION && !AllEndPlainly(RedactKeys(line, i), AUTHORIZATION, 0)
  }

  lemma {:induction false} KeysClean(line: string, n: nat, i: nat)
    requires i < n <= |SENSITIVE_KEYS|
    ensures Clean(RedactKeys(line, n), SENSITIVE_KEYS[i], Trails(line, i), 0)
    decreases n
  {
    KeyFacts(i);
    KeyFacts(n - 1);
    if i == n - 1 {
      PassCleans(RedactKeys(line, i), SENSITIVE_KEYS[i], 0);
      StrictIffAllEndPlainly(RedactKeys(line, i), SENSITIVE_KEYS[i], 0);
    } else {
      KeysClean(line, n - 1, i);
      KeysApart(i, n - 1);
      KeyPassKeeps(RedactKeys(line, n - 1), SENSITIVE_KEYS[n - 1], 0, SENSITIVE_KEYS[i], Trails(line, i));
    }
  }

  lemma {:induction false} PrefixesKeep(text: string, n: nat, i: nat, tail: bool)
    requires n <= |TOKEN_PREFIXES| && i < |SENSITIVE_KEYS| && Clean(text, SENSITIVE_KEYS[i], tail, 0)
    ensures Clean(RedactPrefixes(text, n), SENSITIVE_KEYS[i], tail, 0)
    decreases n
  {
    if n > 0 {
      PrefixesKeep(text, n - 1, i, tail);
      KeyFacts(i);
      PrefixFacts(n - 1);
      PrefixPassKeeps(RedactPrefixes(text, n - 1), TOKEN_PREFIXES[n - 1], 0, SENSITIVE_KEYS[i], tail);
    }
  }

  lemma {:induction false} PrefixesFree(text: string, n: nat, j: nat)
    requires j < n <= |TOKEN_PREFIXES|
    ensures Free(RedactPrefixes(text, n), TOKEN_PREFIXES[j])
    decreases n
  {
    PrefixFacts(j);
    PrefixFacts(n - 1);
    if j == n - 1 {
      PrefixPassFrees(RedactPrefixes(text, n - 1), TOKEN_PREFIXES[j], 0);
    } else {
      PrefixesFree(text, n - 1, j);
      NeedleStaysOut(TOKEN_PREFIXES[j]);
      PrefixPassKeepsFree(RedactPrefixes(text, n - 1), TOKEN_PREFIXES[n - 1], 0, TOKEN_PREFIXES[j]);
    }
  }

  lemma {:induction false} KeysKeepFree(line: string, n: nat, needle: string)
    requires n <= |SENSITIVE_KEYS| && StaysOut(needle) && Free(line, needle)
    ensures Free(RedactKeys(line, n), needle)
    decreases n
  {
    hide Free, StaysOut, RedactAssignmentFrom;
    if n > 0 {
      KeysKeepFree(line, n - 1, needle);
      KeyPassKeepsFree(RedactKeys(line, n - 1), SENSITIVE_KEYS[n - 1], 0, needle);
    }
  }

  lemma {:induction false} PrefixesKeepFree(text: string, n: nat, needle: string)
    requires n <= |TOKEN_PREFIXES| && StaysOut(needle) && Free(text, needle)
    ensures Free(RedactPrefixes(text, n), needle)
    decreases n
  {
    hide Free, StaysOut, RedactPrefixFrom;
    if n > 0 {
      PrefixesKeepFree(text, n - 1, needle);
      PrefixFacts(n - 1);
      PrefixPassKeepsFree(RedactPrefixes(text, n - 1), TOKEN_PREFIXES[n - 1], 0, needle);
    }
  }

  /** What a line does not hold, redaction does not put there. */
  lemma LineKeepsFree(line: string, needle: string)
    requires StaysOut(needle) && Free(line, needle) && RedactLine(line).Some?
    ensures Free(RedactLine(line).value, needle)
  {
    hide Free, StaysOut, RedactKeys, RedactBearerFrom, RedactPrefixes;
    var keyed := RedactKeys(line, |SENSITIVE_KEYS|);
    KeysKeepFree(line, |SENSITIVE_KEYS|, needle);
    BearerPassKeepsFree(keyed, 0, needle);
    PrefixesKeepFree(RedactBearerFrom(keyed, 0).value, |TOKEN_PREFIXES|, needle);
  }

  /**
   Whenever `redact_line` returns, none of the token prefixes occurs in the
   result in any letter case, and every value assigned to a sensitive key is
   empty or exactly the marker; only an `authorization` value may carry
   something behind its marker, and only on the lines that `Trails` describes.
   */
  lemma NoSecretSurvives(line: string)
    requires RedactLine(line).Some?
    ensures forall i: nat :: i < |SENSITIVE_KEYS| ==>
              Clean(RedactLine(line).value, SENSITIVE_KEYS[i], Trails(line, i), 0)
    ensures forall j: nat :: j < |TOKEN_PREFIXES| ==> Free(RedactLine(line).value, TOKEN_PREFIXES[j])
  {
    var keyed := RedactKeys(line, |SENSITIVE_KEYS|);
    var swept := RedactBearerFrom(keyed, 0).value;
    forall i: nat | i < |SENSITIVE_KEYS| ensures Clean(RedactLine(line).value, SENSITIVE_KEYS[i], Trails(line, i), 0) {
      KeyFacts(i);
      KeysClean(line, |SENSITIVE_KEYS|, i);
      BearerPassKeeps(keyed, 0, SENSITIVE_KEYS[i], Trails(line, i));
      PrefixesKeep(swept, |TOKEN_PREFIXES|, i, Trails(line, i));
    }
    forall j: nat | j < |TOKEN_PREFIXES| ensures Free(RedactLine(line).value, TOKEN_PREFIXES[j]) {
      PrefixesFree(swept, |TOKEN_PREFIXES|, j);
    }
  }
}
