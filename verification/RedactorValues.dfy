/**
 What the redactor takes for an assignment, said about the bytes of the line
 alone, and what the passes make of it.
 */
module RedactorValues {
  import opened Wrappers
  import opened AsciiText
  import opened Redactor
  import opened RedactorSites
  import opened RedactorTheorems

  // ------------------------------------------------------------ an assignment, byte by byte

  /** The key at `start` stands behind no word byte, and `=` or `:` at `separator` behind spacing and quotes. */
  predicate Separated(text: string, key: string, start: nat, separator: nat) {
    && start + |key| <= separator < |text|
    && (start > 0 ==> !IsWordByte(text[start - 1]))
    && (forall k :: start + |key| <= k < separator ==> IsWhitespace(text[k]) || IsQuote(text[k]))
    && (text[separator] == '=' || text[separator] == ':')
  }

  /** Behind the separator, spacing only up to `open`. */
  predicate OpensAfter(text: string, separator: nat, open: nat) {
    && separator < open <= |text|
    && (forall k :: separator < k < open ==> IsWhitespace(text[k]))
    && (open < |text| ==> !IsWhitespace(text[open]))
  }

  predicate EndsQuoted(text: string, quote: char, cursor: nat, end: nat) {
    && cursor <= end <= |text|
    && (forall k :: cursor <= k < end ==> text[k] != quote)
    && (end < |text| ==> text[end] == quote)
  }

  predicate EndsBare(text: string, cursor: nat, end: nat) {
    && cursor <= end <= |text|
    && (forall k :: cursor <= k < end ==> !IsWhitespace(text[k]) && text[k] != ',' && text[k] != ';')
    && (end < |text| ==> IsWhitespace(text[end]) || text[end] == ',' || text[end] == ';')
  }

  predicate EndsToken(text: string, token: nat, end: nat) {
    && token <= end <= |text|
    && (forall k :: token <= k < end ==>
          !IsWhitespace(text[k]) && text[k] != ',' && text[k] != ';' && text[k] != '"')
    && (end < |text| ==> IsWhitespace(text[end]) || text[end] == ',' || text[end] == ';' || text[end] == '"')
  }

  /** The value goes from `cursor` up to `end`: a quoted one, a bare one, or `bearer` and a token. */
  predicate ValueAt(text: string, key: string, open: nat, cursor: nat, end: nat) {
    && open <= |text|
    && cursor == (if open < |text| && IsQuote(text[open]) then open + 1 else open)
    && if key == AUTHORIZATION && MatchesAt(text, cursor, BEARER) then EndsToken(text, cursor + |BEARER|, end)
       else if open < |text| && IsQuote(text[open]) then EndsQuoted(text, text[open], cursor, end)
       else EndsBare(text, cursor, end)
  }

  /** The key at `start` is assigned the value from `cursor` up to `end`. */
  predicate AssignedAt(text: string, key: string, start: nat, separator: nat, open: nat, cursor: nat, end: nat) {
    Separated(text, key, start, separator) && OpensAfter(text, separator, open) && ValueAt(text, key, open, cursor, end)
  }

  ghost predicate IsAssigned(text: string, key: string, start: nat, cursor: nat, end: nat) {
    exists separator: nat, open: nat :: AssignedAt(text, key, start, separator, open, cursor, end)
  }

  lemma ValueEndIs(text: string, key: string, open: nat, cursor: nat, end: nat)
    requires open <= |text| && cursor == (if open < |text| && IsQuote(text[open]) then open + 1 else open)
    ensures var quote := if open < |text| && IsQuote(text[open]) then Some(text[open]) else None;
            ValueAt(text, key, open, cursor, end) <==> ValueEnd(text, key, quote, cursor) == end
  {
    var quote := if open < |text| && IsQuote(text[open]) then Some(text[open]) else None;
    if key == AUTHORIZATION && MatchesAt(text, cursor, BEARER) {
      EndIs(text, cursor + |BEARER|, SpaceCommaSemicolonQuote, end);
    } else if quote.Some? {
      EndIs(text, cursor, Exactly(quote.value), end);
    } else {
      EndIs(text, cursor, SpaceCommaSemicolon, end);
    }
  }

  /** A byte scan ends where the first byte of its class is. */
  lemma EndIs(text: string, from: nat, stop: Stop, end: nat)
    requires from <= |text|
    ensures Seek(text, from, stop) == end <==>
              && from <= end <= |text|
              && (forall k :: from <= k < end ==> !Stops(stop, text[k]))
              && (end < |text| ==> Stops(stop, text[end]))
  {
    SeeksFirst(text, from, stop);
    var r := Seek(text, from, stop);
    if from <= end <= |text| && (forall k :: from <= k < end ==> !Stops(stop, text[k]))
       && (end < |text| ==> Stops(stop, text[end]))
    {
      SeekIs(text, from, stop, end);
    }
  }

  /** The site the scan finds is the assignment, if there is one. */
  lemma SiteIff(text: string, key: string, start: nat, separator: nat, cursor: nat, end: nat)
    requires |key| > 0 && start + |key| <= |text|
    ensures SiteAt(text, key, start) == Assigned(separator, cursor, end) <==>
              exists open: nat :: AssignedAt(text, key, start, separator, open, cursor, end)
  {
    if exists open: nat :: AssignedAt(text, key, start, separator, open, cursor, end) {
      var open: nat :| AssignedAt(text, key, start, separator, open, cursor, end);
      AssignedIsSite(text, key, start, separator, open, cursor, end);
    }
    if SiteAt(text, key, start) == Assigned(separator, cursor, end) {
      SiteIsAssigned(text, key, start);
    }
  }

  lemma AssignedIsSite(text: string, key: string, start: nat, separator: nat, open: nat, cursor: nat, end: nat)
    requires |key| > 0 && AssignedAt(text, key, start, separator, open, cursor, end)
    ensures SiteAt(text, key, start) == Assigned(separator, cursor, end)
  {
    SeparatorIs(text, key, start, separator);
    OpenIs(text, separator, open);
    hide Seek, MatchesAt, ValueEnd, Separated, OpensAfter;
    ValueEndIs(text, key, open, cursor, end);
  }

  lemma SeparatorIs(text: string, key: string, start: nat, separator: nat)
    requires Separated(text, key, start, separator)
    ensures start + |key| <= |text| && (start > 0 ==> !IsWordByte(text[start - 1]))
    ensures Seek(text, start + |key|, NotSpaceOrQuote) == separator < |text|
    ensures text[separator] == '=' || text[separator] == ':'
  {
    EndIs(text, start + |key|, NotSpaceOrQuote, separator);
  }

  lemma OpenIs(text: string, separator: nat, open: nat)
    requires OpensAfter(text, separator, open)
    ensures separator < |text| && Seek(text, separator + 1, NotSpace) == open
  {
    EndIs(text, separator + 1, NotSpace, open);
  }

  lemma SiteIsAssigned(text: string, key: string, start: nat)
    requires |key| > 0 && start + |key| <= |text| && SiteAt(text, key, start).Assigned?
    ensures var site := SiteAt(text, key, start);
            && AssignedAt(text, key, start, site.separator, OpeningQuote(text, site.separator).0, site.cursor, site.end)
            && IsAssigned(text, key, start, site.cursor, site.end)
  {
    var site := SiteAt(text, key, start);
    var open := OpeningQuote(text, site.separator).0;
    SeeksFirst(text, start + |key|, NotSpaceOrQuote);
    SeeksFirst(text, site.separator + 1, NotSpace);
    hide Seek, MatchesAt, ValueEnd;
    assert Separated(text, key, start, site.separator);
    assert OpensAfter(text, site.separator, open);
    ValueEndIs(text, key, open, site.cursor, site.end);
    assert AssignedAt(text, key, start, site.separator, open, site.cursor, site.end);
  }

  /** An occurrence that is assigned nothing in this sense is no site. */
  lemma PlainIff(text: string, key: string, start: nat)
    requires |key| > 0 && start + |key| <= |text|
    ensures SiteAt(text, key, start) == Plain <==>
              !exists cursor: nat, end: nat :: IsAssigned(text, key, start, cursor, end)
  {
    hide SiteAt, AssignedAt;
    if cursor: nat, end: nat :| IsAssigned(text, key, start, cursor, end) {
      var separator: nat, open: nat :| AssignedAt(text, key, start, separator, open, cursor, end);
      AssignedIsSite(text, key, start, separator, open, cursor, end);
    }
    if SiteAt(text, key, start).Assigned? {
      SiteIsAssigned(text, key, start);
    }
  }

  // ------------------------------------------------------------ a line up to one of its assignments

  /** The occurrence at `p` lies in a value that is assigned further left. */
  ghost predicate Covered(text: string, key: string, p: nat) {
    exists s: nat, cursor: nat, end: nat ::
      s < p && MatchesAt(text, s, key) && IsAssigned(text, key, s, cursor, end) && cursor <= p < end
  }

  lemma NotCovered(text: string, key: string, p: nat, s: nat)
    requires |key| > 0 && s < p && MatchesAt(text, s, key) && !Covered(text, key, p)
    requires SiteAt(text, key, s).Assigned?
    ensures SiteAt(text, key, s).end <= p || p < SiteAt(text, key, s).cursor
  {
    hide AssignedAt, SiteAt;
    SiteIsAssigned(text, key, s);
  }

  lemma SeparatedIsSite(text: string, key: string, s: nat, separator: nat)
    requires |key| > 0 && Separated(text, key, s, separator)
    ensures SiteAt(text, key, s).Assigned? && SiteAt(text, key, s).separator == separator
  {
    EndIs(text, s + |key|, NotSpaceOrQuote, separator);
    hide Seek, ValueEnd;
  }

  /** Neither separator nor value of an occurrence reaches over a later occurrence that is not covered. */
  lemma SiteStopsBefore(text: string, key: string, s: nat, p: nat)
    requires IsKey(key) && s + |key| <= p && MatchesAt(text, s, key) && MatchesAt(text, p, key)
    requires !Covered(text, key, p) && SiteAt(text, key, s).Assigned?
    ensures SiteAt(text, key, s).separator < p && SiteAt(text, key, s).end <= p
  {
    hide Seek, ValueEnd;
    NotCovered(text, key, p, s);
    SiteIsAssigned(text, key, s);
    MatchStartsWithWordByte(text, p, key);
  }

  /** Cut there, the line reads the same up to the cut. */
  lemma SiteBeforeCut(text: string, key: string, s: nat, p: nat)
    requires IsKey(key) && s + |key| <= p && MatchesAt(text, s, key) && MatchesAt(text, p, key)
    requires !Covered(text, key, p)
    ensures SiteAt(text[..p], key, s) == SiteAt(text, key, s)
  {
    var t := text[..p];
    MatchStartsWithWordByte(text, p, key);
    if SiteAt(text, key, s).Assigned? {
      SiteStopsBefore(text, key, s, p);
      SiteIsAssigned(text, key, s);
      var site := SiteAt(text, key, s);
      var open := OpeningQuote(text, site.separator).0;
      hide SiteAt, IsKey, Covered, OpeningQuote;
      AssignedBeforeCut(text, key, s, p, site.separator, open, site.cursor, site.end);
      AssignedIsSite(t, key, s, site.separator, open, site.cursor, site.end);
    } else if SiteAt(t, key, s).Assigned? {
      SiteIsAssigned(t, key, s);
      assert Separated(text, key, s, SiteAt(t, key, s).separator);
      SeparatedIsSite(text, key, s, SiteAt(t, key, s).separator);
    }
  }

  lemma AssignedBeforeCut(text: string, key: string, s: nat, p: nat, separator: nat, open: nat, cursor: nat, end: nat)
    requires |key| > 0 && AssignedAt(text, key, s, separator, open, cursor, end) && end <= p < |text|
    requires IsWordByte(text[p])
    ensures AssignedAt(text[..p], key, s, separator, open, cursor, end)
  {
    var t := text[..p];
    assert MatchesAt(text, cursor, BEARER) && cursor + |BEARER| <= p ==> MatchesAt(t, cursor, BEARER);
    assert MatchesAt(t, cursor, BEARER) ==> MatchesAt(text, cursor, BEARER) by {
      CutMatches(text, p, cursor, BEARER);
    }
    hide MatchesAt;
  }

  lemma CutMatches(text: string, p: nat, s: nat, needle: string)
    requires p <= |text|
    ensures MatchesAt(text[..p], s, needle) <==> MatchesAt(text, s, needle) && s + |needle| <= p
  {
    if s + |needle| <= p {
      forall k | 0 <= k < |needle|
        ensures Fold(text[..p][s + k]) == Fold(needle[k]) <==> Fold(text[s + k]) == Fold(needle[k])
      {
      }
    }
  }

  lemma PieceFromEarlier(text: string, key: string, from: nat, p: nat)
    requires |key| > 0 && from <= p && p + |key| <= |text|
    ensures CopySite(text, key, from, p).0 == text[from..p] + CopySite(text, key, p, p).0
    ensures CopySite(text, key, from, p).1 == CopySite(text, key, p, p).1
  {
    hide SiteAt;
    var site := SiteAt(text, key, p);
    var stop := if site.Assigned? then site.cursor else p + |key|;
    assert text[from..stop] == text[from..p] + text[p..stop];
  }

  lemma CopyFromEarlier(text: string, key: string, from: nat, p: nat)
    requires |key| > 0 && from <= p && MatchesAt(text, p, key)
    requires forall j: nat :: from <= j < p ==> !MatchesAt(text, j, key)
    ensures CopyRedacted(text, key, from) == text[from..p] + CopyRedacted(text, key, p)
  {
    FindIs(text, key, from, p);
    FindIs(text, key, p, p);
    hide MatchesAt, FindFrom, CopySite, CopyRedacted;
    CopyUnfolds(text, key, from, p);
    CopyUnfolds(text, key, p, p);
    PieceFromEarlier(text, key, from, p);
    var piece := CopySite(text, key, p, p);
    Regroup(text[from..p], piece.0, CopyRedacted(text, key, piece.1));
  }

  /** What is copied out up to an occurrence that is not covered is what the line up to it becomes on its own. */
  lemma {:induction false} CopySplits(text: string, key: string, from: nat, p: nat)
    requires IsKey(key) && from <= p && MatchesAt(text, p, key) && !Covered(text, key, p)
    ensures CopyRedacted(text, key, from) == CopyRedacted(text[..p], key, from) + CopyRedacted(text, key, p)
    decreases p - from
  {
    hide Covered, IsKey, SiteAt;
    var t := text[..p];
    FindsFirst(text, key, from);
    FindsFirst(t, key, from);
    forall j: nat ensures MatchesAt(t, j, key) <==> MatchesAt(text, j, key) && j + |key| <= p {
      CutMatches(text, p, j, key);
    }
    var start := FindFrom(text, key, from).value;
    hide MatchesAt, FindFrom;
    KeyIsLong(key);
    if start == p {
      assert FindFrom(t, key, from).None?;
      CopyFromEarlier(text, key, from, p);
      assert CopyRedacted(t, key, from) == t[from..] == text[from..p];
    } else {
      NoOverlap(text, key, start, p);
      FindIs(t, key, from, start);
      SiteBeforeCut(text, key, start, p);
      StepBeforeCut(text, key, from, start, p);
      var piece := CopySite(text, key, from, start);
      CopyUnfolds(text, key, from, start);
      CopyUnfolds(t, key, from, start);
      hide CopyRedacted, CopySite;
      CopySplits(text, key, piece.1, p);
      Regroup(piece.0, CopyRedacted(t, key, piece.1), CopyRedacted(text, key, p));
    }
  }

  lemma KeyIsLong(key: string)
    requires IsKey(key)
    ensures |key| >= 3
  {
  }

  lemma NoOverlap(text: string, key: string, s: nat, p: nat)
    requires IsKey(key) && MatchesAt(text, s, key) && MatchesAt(text, p, key) && s < p
    ensures s + |key| <= p
  {
    if p < s + |key| {
      NoMatchInside(text, s, key, p, key);
    }
  }

  lemma StepBeforeCut(text: string, key: string, from: nat, start: nat, p: nat)
    requires IsKey(key) && from <= start && start + |key| <= p && MatchesAt(text, start, key) && MatchesAt(text, p, key)
    requires !Covered(text, key, p) && SiteAt(text[..p], key, start) == SiteAt(text, key, start)
    ensures CopySite(text[..p], key, from, start) == CopySite(text, key, from, start)
    ensures CopySite(text, key, from, start).1 <= p
  {
    var site := SiteAt(text, key, start);
    if site.Assigned? {
      SiteStopsBefore(text, key, start, p);
    }
    hide SiteAt, IsKey, MatchesAt, Covered;
    var stop := if site.Assigned? then site.cursor else start + |key|;
    assert text[..p][from..stop] == text[from..stop];
  }

  // ------------------------------------------------------------ what the pass makes of an occurrence

  /** Behind a value nothing depends on what was in front. */
  lemma CopyOnItsOwn(text: string, key: string, at: nat)
    requires IsKey(key) && at <= |text| && (at < |text| ==> !IsWordByte(text[at]))
    ensures CopyRedacted(text, key, at) == RedactAssignmentFrom(text[at..], key, 0)
  {
    hide IsKey;
    assert text[at..][0..] == text[at..];
    CopyMoves(text, at, text[at..], 0, key);
    PassIsCopy(text[at..], key, 0);
  }

  lemma PassUpTo(text: string, key: string, p: nat)
    requires IsKey(key) && MatchesAt(text, p, key) && !Covered(text, key, p)
    ensures |key| > 0 && p <= |text|
    ensures RedactAssignmentFrom(text, key, 0) == RedactAssignmentFrom(text[..p], key, 0) + CopyRedacted(text, key, p)
  {
    KeyIsLong(key);
    hide IsKey, Covered;
    PassIsCopy(text, key, 0);
    PassIsCopy(text[..p], key, 0);
    CopySplits(text, key, 0, p);
    Regroup([], CopyRedacted(text[..p], key, 0), CopyRedacted(text, key, p));
  }

  lemma CopyAtMatch(text: string, key: string, p: nat)
    requires |key| > 0 && MatchesAt(text, p, key)
    ensures var piece := CopySite(text, key, p, p);
            CopyRedacted(text, key, p) == piece.0 + CopyRedacted(text, key, piece.1)
  {
    FindIs(text, key, p, p);
    hide MatchesAt, CopySite, FindFrom;
    CopyUnfolds(text, key, p, p);
  }

  lemma PassBehind(text: string, key: string, at: nat)
    requires IsKey(key) && at <= |text|
    ensures |key| > 0
    ensures var r := RedactAssignmentFrom(text, key, at); at <= |r| && r[at..] == CopyRedacted(text, key, at)
  {
    KeyIsLong(key);
    hide IsKey, RedactAssignmentFrom, CopyRedacted;
    PassIsCopy(text, key, at);
  }

  /**
   The value of an assignment becomes the marker; the line in front of it becomes
   what it would become on its own, and so does the rest. The one exception is an
   assignment inside a value that is assigned further left.
   */
  lemma ValueIsMarked(text: string, key: string, p: nat, cursor: nat, end: nat)
    requires IsKey(key) && MatchesAt(text, p, key) && IsAssigned(text, key, p, cursor, end) && cursor < end
    requires !Covered(text, key, p)
    ensures |key| > 0 && p < cursor < end <= |text|
    ensures RedactAssignmentFrom(text, key, 0)
            == RedactAssignmentFrom(text[..p], key, 0) + text[p..cursor] + REDACTED
               + RedactAssignmentFrom(text[end..], key, 0)
  {
    KeyIsLong(key);
    var separator: nat, open: nat :| AssignedAt(text, key, p, separator, open, cursor, end);
    AssignedIsSite(text, key, p, separator, open, cursor, end);
    ValueEndsOutsideWords(text, key, p);
    hide AssignedAt, IsAssigned, Covered, IsKey, SiteAt;
    PassUpTo(text, key, p);
    CopyAtMatch(text, key, p);
    CopyOnItsOwn(text, key, end);
    hide MatchesAt, CopyRedacted, RedactAssignmentFrom;
    var before, after := RedactAssignmentFrom(text[..p], key, 0), CopyRedacted(text, key, end);
    Regroup(before, text[p..cursor] + REDACTED, after);
    Regroup(before, text[p..cursor], REDACTED);
  }

  /** An empty value stays, and what is behind it becomes what it would become on its own. */
  lemma EmptyValueStays(text: string, key: string, p: nat, cursor: nat)
    requires IsKey(key) && MatchesAt(text, p, key) && IsAssigned(text, key, p, cursor, cursor)
    requires !Covered(text, key, p)
    ensures |key| > 0 && p < cursor <= |text|
    ensures RedactAssignmentFrom(text, key, 0)
            == RedactAssignmentFrom(text[..p], key, 0) + text[p..cursor] + RedactAssignmentFrom(text[cursor..], key, 0)
  {
    KeyIsLong(key);
    var separator: nat, open: nat :| AssignedAt(text, key, p, separator, open, cursor, cursor);
    AssignedIsSite(text, key, p, separator, open, cursor, cursor);
    ValueEndsOutsideWords(text, key, p);
    hide AssignedAt, IsAssigned, Covered, IsKey, SiteAt;
    PassUpTo(text, key, p);
    CopyAtMatch(text, key, p);
    CopyOnItsOwn(text, key, cursor);
    hide MatchesAt, CopyRedacted, RedactAssignmentFrom;
    Regroup(RedactAssignmentFrom(text[..p], key, 0), text[p..cursor], CopyRedacted(text, key, cursor));
  }

  /** An occurrence that is assigned nothing stays, and the pass goes on right behind it. */
  lemma UnassignedStays(text: string, key: string, p: nat)
    requires IsKey(key) && MatchesAt(text, p, key) && !Covered(text, key, p)
    requires !exists cursor: nat, end: nat :: IsAssigned(text, key, p, cursor, end)
    ensures |key| > 0 && p + |key| <= |text|
    ensures var rest := RedactAssignmentFrom(text, key, p + |key|);
            && p + |key| <= |rest|
            && RedactAssignmentFrom(text, key, 0)
               == RedactAssignmentFrom(text[..p], key, 0) + text[p..p + |key|] + rest[p + |key|..]
  {
    KeyIsLong(key);
    PlainIff(text, key, p);
    hide IsAssigned, Covered, IsKey, SiteAt;
    PlainStays(text, key, p);
  }

  lemma PlainStays(text: string, key: string, p: nat)
    requires IsKey(key) && |key| > 0 && MatchesAt(text, p, key) && !Covered(text, key, p)
    requires SiteAt(text, key, p) == Plain
    ensures var rest := RedactAssignmentFrom(text, key, p + |key|);
            && p + |key| <= |rest|
            && RedactAssignmentFrom(text, key, 0)
               == RedactAssignmentFrom(text[..p], key, 0) + text[p..p + |key|] + rest[p + |key|..]
  {
    hide Covered, IsKey, SiteAt, CopyRedacted, RedactAssignmentFrom;
    var behind := p + |key|;
    var before, after := RedactAssignmentFrom(text[..p], key, 0), CopyRedacted(text, key, behind);
    PassUpTo(text, key, p);
    CopyAtMatch(text, key, p);
    hide MatchesAt;
    assert CopyRedacted(text, key, p) == text[p..behind] + after;
    Regroup(before, text[p..behind], after);
    PassBehind(text, key, behind);
  }
}
