/**
 Bearer tokens: which of them the redactor replaces. Behind an empty token the
 bearer pass goes on ten bytes further, so a token that starts in between stays.
 */
module RedactorBearers {
  import opened Wrappers
  import opened AsciiText
  import opened Redactor
  import opened RedactorSites
  import opened RedactorTheorems
  import opened RedactorLine
  import opened RedactorUtf8

  /** The token at `token` is exactly the marker or, where that is fine, empty. */
  predicate TokenOk(text: string, empty: bool, token: nat)
    requires token <= |text|
  {
    var end := Seek(text, token, SpaceCommaSemicolonQuote);
    || (empty && end == token)
    || (end == token + |REDACTED| && text[token..end] == REDACTED)
  }

  /** The same behind every `bearer ` from byte `from` on. */
  ghost predicate BearersOk(text: string, empty: bool, from: nat) {
    forall s: nat :: from <= s && MatchesAt(text, s, BEARER) ==> TokenOk(text, empty, s + |BEARER|)
  }

  // ------------------------------------------------------------ the condition on the text

  /**
   The iteration at `start` leaves no token behind: it has one itself or, where
   an empty one is fine, skips none on its way on.
   */
  ghost predicate StepOk(text: string, empty: bool, start: nat)
    requires start + |BEARER| <= |text|
  {
    var token := start + |BEARER|;
    || token < Seek(text, token, SpaceCommaSemicolonQuote)
    || (empty && forall s: nat :: start < s < Resume(text, start) && MatchesAt(text, s, BEARER) ==>
                   TokenOk(text, empty, s + |BEARER|))
  }

  /** The same for every iteration, reading the text as it is, up to its end. */
  ghost predicate ScanOk(text: string, empty: bool, from: nat)
    decreases |text| - from
  {
    && from <= |text|
    && match FindFrom(text, BEARER, from)
       case None => true
       case Some(start) => StepOk(text, empty, start) && ScanOk(text, empty, Resume(text, start))
  }

  // ------------------------------------------------------------ tokens seen from elsewhere

  lemma TokenMoves(u: string, at: nat, v: string, to: nat, empty: bool, token: nat)
    requires at <= token <= |u| && to <= |v| && u[at..] == v[to..]
    ensures token - at + to <= |v|
    ensures TokenOk(v, empty, token - at + to) == TokenOk(u, empty, token)
  {
    hide Seek;
    SameTail(u, v, at, to);
    SeekMoves(u, v, at, to, token, SpaceCommaSemicolonQuote);
    SliceMoves(u, v, at, to, token, Seek(u, token, SpaceCommaSemicolonQuote));
  }

  lemma TokenAgrees(u: string, v: string, empty: bool, token: nat)
    requires token <= |u| && AgreeThrough(u, v, Seek(u, token, SpaceCommaSemicolonQuote))
    ensures token <= |v| && TokenOk(v, empty, token) == TokenOk(u, empty, token)
  {
    hide Seek;
    var end := Seek(u, token, SpaceCommaSemicolonQuote);
    SeekAgrees(u, v, token, SpaceCommaSemicolonQuote);
    SameSlice(u, v, end, token, end);
  }

  lemma SkippedMoves(u: string, at: nat, v: string, to: nat, empty: bool, start: nat, s: nat)
    requires at <= start < s && MatchesAt(u, s, BEARER) && to <= |v| && u[at..] == v[to..]
    ensures s - at + to + |BEARER| <= |v| && MatchesAt(v, s - at + to, BEARER)
    ensures TokenOk(v, empty, s - at + to + |BEARER|) == TokenOk(u, empty, s + |BEARER|)
  {
    hide TokenOk;
    MatchMoves(u, v, at, to, s, BEARER);
    TokenMoves(u, at, v, to, empty, s + |BEARER|);
  }

  lemma StepMoves(u: string, at: nat, v: string, to: nat, empty: bool, start: nat)
    requires at <= start && start + |BEARER| <= |u| && to <= |v| && u[at..] == v[to..]
    requires StepOk(u, empty, start)
    ensures start - at + to + |BEARER| <= |v| && StepOk(v, empty, start - at + to)
  {
    hide TokenOk, Seek;
    SameTail(u, v, at, to);
    ResumeMoves(u, at, v, to, start);
    var there := start - at + to;
    SeekMoves(u, v, at, to, start + |BEARER|, SpaceCommaSemicolonQuote);
    forall s: nat | there < s < Resume(v, there) && MatchesAt(v, s, BEARER) && empty
                    && Seek(v, there + |BEARER|, SpaceCommaSemicolonQuote) <= there + |BEARER|
      ensures TokenOk(v, empty, s + |BEARER|)
    {
      SkippedMoves(v, to, u, at, empty, there, s);
    }
  }

  lemma {:induction false} ScanMoves(u: string, at: nat, v: string, to: nat, empty: bool)
    requires at <= |u| && to <= |v| && u[at..] == v[to..]
    ensures ScanOk(u, empty, at) == ScanOk(v, empty, to)
    decreases |u| - at
  {
    hide Resume, MatchesAt, StepOk;
    FindMoves(u, at, v, to, BEARER);
    SameTail(u, v, at, to);
    if FindFrom(u, BEARER, at).Some? {
      var start := FindFrom(u, BEARER, at).value;
      var there := start - at + to;
      ResumeMoves(u, at, v, to, start);
      if StepOk(u, empty, start) {
        StepMoves(u, at, v, to, empty, start);
      }
      if StepOk(v, empty, there) {
        StepMoves(v, to, u, at, empty, there);
      }
      var next := Resume(u, start);
      if next <= |u| {
        TailsFrom(u, v, at, to, next);
        ScanMoves(u, next, v, next - at + to, empty);
      }
    }
  }

  // ------------------------------------------------------------ one iteration

  lemma RewriteKeepsHead(text: string, start: nat)
    requires start + |BEARER| <= |text|
    ensures var next := RewriteBearer(text, start);
            && start + |BEARER| < next.from && start + |BEARER| <= |next.text|
            && next.text[..start + |BEARER|] == text[..start + |BEARER|]
  {
  }

  lemma BearerUnfolds(text: string, from: nat, start: nat)
    requires from <= |text| && FindFrom(text, BEARER, from) == Some(start)
    ensures RedactBearerFrom(text, from)
            == RedactBearerFrom(RewriteBearer(text, start).text, RewriteBearer(text, start).from)
  {
    hide RewriteBearer, FindFrom;
  }

  /** Later iterations leave the text up to the search position alone, and the byte there. */
  lemma {:induction false} BearerPassKeepsThrough(text: string, from: nat)
    requires from <= |text| && RedactBearerFrom(text, from).Some?
    ensures AgreeThrough(text, RedactBearerFrom(text, from).value, from)
    decreases |text| - from
  {
    hide RewriteBearer, MatchesAt, FindFrom, Seek;
    if FindFrom(text, BEARER, from).Some? {
      var start := FindFrom(text, BEARER, from).value;
      var next := RewriteBearer(text, start);
      RewriteKeepsHead(text, start);
      BearerPassKeepsThrough(next.text, next.from);
      var r, token := RedactBearerFrom(text, from).value, start + |BEARER|;
      SamePrefix(r, next.text, next.from, token);
      AgreeBelow(text, r, token, from);
    }
  }

  /** In `bearer [REDACTED]` no other `bearer ` begins. */
  lemma NoBearerInside(r: string, start: nat, s: nat)
    requires MatchesAt(r, start, BEARER) && start < s < start + |BEARER| + |REDACTED|
    requires start + |BEARER| + |REDACTED| <= |r|
    requires r[start + |BEARER|..start + |BEARER| + |REDACTED|] == REDACTED
    ensures !MatchesAt(r, s, BEARER)
  {
    var token := start + |BEARER|;
    if s < token {
      MatchByte(r, start, BEARER, s - start);
    } else {
      assert r[s] == r[token..token + |REDACTED|][s - token];
    }
    assert Fold(r[s]) != 'b';
    assert MatchesAt(r, s, BEARER) ==> Fold(r[s + 0]) == Fold(BEARER[0]);
  }

  /** A token that was replaced reads back as exactly the marker. */
  lemma MarkedTokenStays(text: string, r: string, empty: bool, token: nat, end: nat)
    requires token <= end <= |text| && end == Seek(text, token, SpaceCommaSemicolonQuote)
    requires AgreeThrough(Mark(text, token, end), r, token + |REDACTED|)
    ensures TokenOk(r, empty, token) && r[token..token + |REDACTED|] == REDACTED
  {
    var m, next := Mark(text, token, end), token + |REDACTED|;
    MarkParts(text, token, end);
    SeeksFirst(text, token, SpaceCommaSemicolonQuote);
    assert r[token..next] == r[..next][token..] == m[..next][token..] == REDACTED;
    assert end < |text| ==> m[next..][0] == text[end..][0];
    forall k | token <= k < next ensures !Stops(SpaceCommaSemicolonQuote, r[k]) {
      assert r[k] == r[token..next][k - token];
    }
    SeekIs(r, token, SpaceCommaSemicolonQuote, next);
  }

  /** Nothing between the iteration and where it goes on has changed. */
  ghost predicate KeptTo(text: string, r: string, from: nat) {
    || r == text
    || exists start: nat :: from <= start && start + |BEARER| <= |r| && MatchesAt(text, start, BEARER)
                            && r[..start + |BEARER|] == text[..start + |BEARER|]
  }

  lemma PassKeepsTo(text: string, from: nat)
    requires from <= |text| && RedactBearerFrom(text, from).Some?
    ensures KeptTo(text, RedactBearerFrom(text, from).value, from)
  {
    hide RewriteBearer, MatchesAt, FindFrom, Seek;
    FindsFirst(text, BEARER, from);
    if FindFrom(text, BEARER, from).Some? {
      var start := FindFrom(text, BEARER, from).value;
      BearerUnfolds(text, from, start);
      hide RedactBearerFrom;
      var next, r := RewriteBearer(text, start), RedactBearerFrom(text, from).value;
      RewriteKeepsHead(text, start);
      BearerPassKeepsThrough(next.text, next.from);
      SamePrefix(r, next.text, next.from, start + |BEARER|);
      assert start + |BEARER| <= |r|;
    }
  }

  /** A `bearer ` before that place, and its token, are as they were: the next one begins behind a space. */
  lemma BeforeIsKept(text: string, r: string, empty: bool, from: nat, s: nat)
    requires KeptTo(text, r, from) && s < from
    ensures MatchesAt(r, s, BEARER) <==> MatchesAt(text, s, BEARER)
    ensures MatchesAt(text, s, BEARER) ==> TokenOk(r, empty, s + |BEARER|) == TokenOk(text, empty, s + |BEARER|)
  {
    if r != text {
      var start: nat :| from <= start && start + |BEARER| <= |r| && MatchesAt(text, start, BEARER)
                        && r[..start + |BEARER|] == text[..start + |BEARER|];
      BearerEndsInSpace(text, start);
      var p, token := start + |BEARER|, s + |BEARER|;
      MatchLeft(text, r, p, s, BEARER);
      hide MatchesAt, TokenOk;
      SeeksFirst(text, token, SpaceCommaSemicolonQuote);
      var end := Seek(text, token, SpaceCommaSemicolonQuote);
      assert end < p;
      AgreeBelow(text, r, p, end);
      TokenAgrees(text, r, empty, token);
    }
  }

  lemma FilledStep(text: string, marked: string, r: string, empty: bool, from: nat, start: nat)
    requires from <= start && MatchesAt(text, start, BEARER)
    requires forall j: nat :: from <= j < start ==> !MatchesAt(text, j, BEARER)
    requires start + |BEARER| <= |marked| && marked[..start + |BEARER|] == text[..start + |BEARER|]
    requires AgreeThrough(marked, r, start + |BEARER| + |REDACTED|)
    requires TokenOk(r, empty, start + |BEARER|)
    requires r[start + |BEARER|..start + |BEARER| + |REDACTED|] == REDACTED
    ensures BearersOk(r, empty, from) <==> BearersOk(r, empty, start + |BEARER| + |REDACTED|)
  {
    var token := start + |BEARER|;
    SamePrefix(r, marked, token + |REDACTED|, token);
    assert r[..token] == text[..token];
    MatchLeft(text, r, token, start, BEARER);
    hide TokenOk;
    forall s: nat | from <= s < token + |REDACTED| && MatchesAt(r, s, BEARER) ensures s == start {
      if s < start {
        MatchLeft(text, r, token, s, BEARER);
      } else if start < s {
        NoBearerInside(r, start, s);
      }
    }
  }

  lemma EmptyStep(text: string, r: string, empty: bool, from: nat, start: nat)
    requires from <= start && MatchesAt(text, start, BEARER) && Resume(text, start) <= |text|
    requires forall j: nat :: from <= j < start ==> !MatchesAt(text, j, BEARER)
    requires Seek(text, start + |BEARER|, SpaceCommaSemicolonQuote) == start + |BEARER|
    requires KeptTo(text, r, Resume(text, start))
    ensures BearersOk(r, empty, from) <==> StepOk(text, empty, start) && BearersOk(r, empty, Resume(text, start))
  {
    var next := Resume(text, start);
    forall s: nat | s < next
      ensures MatchesAt(r, s, BEARER) <==> MatchesAt(text, s, BEARER)
      ensures MatchesAt(text, s, BEARER) ==> TokenOk(r, empty, s + |BEARER|) == TokenOk(text, empty, s + |BEARER|)
    {
      BeforeIsKept(text, r, empty, next, s);
    }
    assert TokenOk(text, empty, start + |BEARER|) <==> empty;
    hide TokenOk, Seek, MatchesAt, Resume;
  }

  // ------------------------------------------------------------ the pass

  /**
   Exactly when the bearer pass returns and every token behind a `bearer ` of its
   result is the marker: every `bearer ` it comes to has a token. Where empty
   tokens are fine: it does not run past the end, and behind an empty token it
   skips no `bearer ` with a token of its own, unless that is the marker already.
   */
  lemma {:induction false} ScanIff(text: string, empty: bool, from: nat)
    requires from <= |text|
    ensures RedactBearerFrom(text, from).Some? && BearersOk(RedactBearerFrom(text, from).value, empty, from)
            <==> ScanOk(text, empty, from)
    decreases |text| - from
  {
    FindsFirst(text, BEARER, from);
    if FindFrom(text, BEARER, from).Some? {
      var start := FindFrom(text, BEARER, from).value;
      var next := RewriteBearer(text, start);
      RewriteBearerTail(text, start);
      if Resume(text, start) <= |text| {
        ScanIff(next.text, empty, next.from);
        ScanMoves(next.text, next.from, text, Resume(text, start), empty);
        if RedactBearerFrom(text, from).Some? {
          BearerStep(text, empty, from, start);
        }
      }
      hide RewriteBearer, MatchesAt, StepOk, BearersOk, Resume;
    }
  }

  lemma BearerStep(text: string, empty: bool, from: nat, start: nat)
    requires from <= start && MatchesAt(text, start, BEARER) && FindFrom(text, BEARER, from) == Some(start)
    requires forall j: nat :: from <= j < start ==> !MatchesAt(text, j, BEARER)
    requires Resume(text, start) <= |text| && RedactBearerFrom(text, from).Some?
    ensures var r := RedactBearerFrom(text, from).value;
            BearersOk(r, empty, from) <==>
              StepOk(text, empty, start) && BearersOk(r, empty, RewriteBearer(text, start).from)
  {
    hide FindFrom, RedactBearerFrom, MatchesAt, BearersOk, KeptTo, Seek;
    var next, token := RewriteBearer(text, start), start + |BEARER|;
    var r := RedactBearerFrom(text, from).value;
    RewriteBearerTail(text, start);
    BearerUnfolds(text, from, start);
    if token < Seek(text, token, SpaceCommaSemicolonQuote) {
      BearerPassKeepsThrough(next.text, next.from);
      FilledTokenIsOk(text, r, empty, start);
      hide RewriteBearer, TokenOk;
      FilledStep(text, next.text, r, empty, from, start);
    } else {
      PassKeepsTo(text, next.from);
      EmptyStep(text, r, empty, from, start);
    }
  }

  lemma FilledTokenIsOk(text: string, r: string, empty: bool, start: nat)
    requires start + |BEARER| <= |text| && start + |BEARER| < Seek(text, start + |BEARER|, SpaceCommaSemicolonQuote)
    requires AgreeThrough(RewriteBearer(text, start).text, r, start + |BEARER| + |REDACTED|)
    ensures var token := start + |BEARER|;
            TokenOk(r, empty, token) && r[token..token + |REDACTED|] == REDACTED
    ensures RewriteBearer(text, start).text[..start + |BEARER|] == text[..start + |BEARER|]
  {
    RewriteKeepsHead(text, start);
    hide TokenOk;
    var token := start + |BEARER|;
    MarkedTokenStays(text, r, empty, token, Seek(text, token, SpaceCommaSemicolonQuote));
  }
}
