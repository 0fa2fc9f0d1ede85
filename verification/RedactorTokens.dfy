/**
 What the two token passes of the redactor compute: the line, read once, with
 exactly the tokens replaced.
 */
module RedactorTokens {
  import opened Wrappers
  import opened AsciiText
  import opened Redactor
  import opened RedactorSites
  import opened RedactorLine
  import opened RedactorUtf8

  lemma PrefixGrows(text: string, from: nat, to: nat)
    requires from <= to <= |text|
    ensures text[..to] == text[..from] + text[from..to]
  {
  }

  // ------------------------------------------------------------ prefixed tokens

  function TokenEnd(text: string, prefix: string, start: nat): (end: nat)
    requires StartsToken(prefix) && MatchesAt(text, start, prefix)
    ensures start < end <= |text|
  {
    var end := Seek(text, start, SpaceCommaSemicolonQuote);
    assert end > start by { assert Fold(text[start + 0]) == Fold(prefix[0]); }
    end
  }

  /** The reference form of a prefix pass: a copy of `text[from..]` with each token of the prefix replaced. */
  function CopyPrefixed(text: string, prefix: string, from: nat): (copy: string)
    requires from <= |text| && StartsToken(prefix)
    decreases |text| - from
  {
    match FindFrom(text, prefix, from)
    case None => text[from..]
    case Some(start) =>
      FindsFirst(text, prefix, from);
      var end := TokenEnd(text, prefix, start);
      text[from..start] + REDACTED + CopyPrefixed(text, prefix, end)
  }

  lemma CopyPrefixedUnfolds(text: string, prefix: string, from: nat, start: nat)
    requires from <= |text| && StartsToken(prefix) && FindFrom(text, prefix, from) == Some(start)
    ensures MatchesAt(text, start, prefix)
    ensures CopyPrefixed(text, prefix, from)
            == text[from..start] + REDACTED + CopyPrefixed(text, prefix, TokenEnd(text, prefix, start))
  {
    FindsFirst(text, prefix, from);
  }

  lemma CopyPrefixedEnds(text: string, prefix: string, from: nat)
    requires from <= |text| && StartsToken(prefix) && FindFrom(text, prefix, from).None?
    ensures CopyPrefixed(text, prefix, from) == text[from..]
  {
  }

  lemma {:induction false} CopyPrefixedMoves(u: string, at: nat, v: string, to: nat, prefix: string)
    requires at <= |u| && to <= |v| && u[at..] == v[to..] && StartsToken(prefix)
    ensures CopyPrefixed(u, prefix, at) == CopyPrefixed(v, prefix, to)
    decreases |u| - at
  {
    hide CopyPrefixed, StartsToken, MatchesAt, FindFrom, Seek;
    FindMoves(u, at, v, to, prefix);
    SameTail(u, v, at, to);
    if FindFrom(u, prefix, at).None? {
      CopyPrefixedEnds(u, prefix, at);
      CopyPrefixedEnds(v, prefix, to);
    } else {
      var start := FindFrom(u, prefix, at).value;
      var there := start - at + to;
      CopyPrefixedUnfolds(u, prefix, at, start);
      CopyPrefixedUnfolds(v, prefix, to, there);
      SeekMoves(u, v, at, to, start, SpaceCommaSemicolonQuote);
      SliceMoves(u, v, at, to, at, start);
      var end := TokenEnd(u, prefix, start);
      TailsFrom(u, v, at, to, end);
      CopyPrefixedMoves(u, end, v, end - at + to, prefix);
    }
  }

  /** The in-place prefix pass computes the copy: outside the replaced tokens the line is as it was. */
  lemma {:induction false} PrefixPassIsCopy(text: string, prefix: string, from: nat)
    requires from <= |text| && StartsToken(prefix)
    ensures RedactPrefixFrom(text, prefix, from) == text[..from] + CopyPrefixed(text, prefix, from)
    decreases |text| - from
  {
    if FindFrom(text, prefix, from).Some? {
      var start := FindFrom(text, prefix, from).value;
      CopyPrefixedUnfolds(text, prefix, from, start);
      var next, end := RewritePrefix(text, prefix, start), TokenEnd(text, prefix, start);
      assert next == Progress(Mark(text, start, end), start + |REDACTED|);
      MarkParts(text, start, end);
      hide RewritePrefix, TokenEnd, MatchesAt, StartsToken, Mark;
      PrefixPassIsCopy(next.text, prefix, next.from);
      CopyPrefixedMoves(next.text, next.from, text, end, prefix);
      MarkedPrefix(next.text, text, start);
      PrefixGrows(text, from, start);
      Glue(text, from, start, REDACTED, CopyPrefixed(text, prefix, end), next.text[..next.from]);
    }
  }

  lemma MarkedPrefix(marked: string, text: string, cut: nat)
    requires cut <= |text| && cut + |REDACTED| <= |marked|
    requires marked[..cut] == text[..cut] && marked[cut..cut + |REDACTED|] == REDACTED
    ensures marked[..cut + |REDACTED|] == text[..cut] + REDACTED
  {
    PrefixGrows(marked, cut, cut + |REDACTED|);
  }

  // ------------------------------------------------------------ bearer tokens

  /** What stands in the copy between the `bearer ` at `start` and the position where reading goes on. */
  function InPlaceOfToken(text: string, start: nat): (s: string)
    requires start + |BEARER| <= |text| && Resume(text, start) <= |text|
  {
    var token := start + |BEARER|;
    if token < Seek(text, token, SpaceCommaSemicolonQuote) then REDACTED else text[token..token + |REDACTED|]
  }

  /** The reference form of the bearer pass; `None` where the pass panics. */
  function CopyBearer(text: string, from: nat): (copy: Option<string>)
    ensures copy.Some? ==> from <= |text|
    decreases |text| - from
  {
    if from > |text| then None
    else
      match FindFrom(text, BEARER, from)
      case None => Some(text[from..])
      case Some(start) =>
        match CopyBearer(text, Resume(text, start))
        case None => None
        case Some(rest) => Some(text[from..start + |BEARER|] + InPlaceOfToken(text, start) + rest)
  }

  lemma InPlaceMoves(u: string, at: nat, v: string, to: nat, start: nat)
    requires at <= start && start + |BEARER| <= |u| && to <= |v| && u[at..] == v[to..]
    requires Resume(u, start) <= |u|
    ensures start - at + to + |BEARER| <= |v| && Resume(v, start - at + to) <= |v|
    ensures InPlaceOfToken(v, start - at + to) == InPlaceOfToken(u, start)
  {
    hide Seek;
    ResumeMoves(u, at, v, to, start);
    SameTail(u, v, at, to);
    var token := start + |BEARER|;
    SeekMoves(u, v, at, to, token, SpaceCommaSemicolonQuote);
    if !(token < Seek(u, token, SpaceCommaSemicolonQuote)) {
      SliceMoves(u, v, at, to, token, token + |REDACTED|);
    }
  }

  lemma {:induction false} CopyBearerMoves(u: string, at: nat, v: string, to: nat)
    requires at <= |u| && to <= |v| && u[at..] == v[to..]
    ensures CopyBearer(u, at) == CopyBearer(v, to)
    decreases |u| - at
  {
    hide Resume, MatchesAt, InPlaceOfToken;
    FindMoves(u, at, v, to, BEARER);
    SameTail(u, v, at, to);
    if FindFrom(u, BEARER, at).Some? {
      var start := FindFrom(u, BEARER, at).value;
      ResumeMoves(u, at, v, to, start);
      var next := Resume(u, start);
      if next <= |u| {
        TailsFrom(u, v, at, to, next);
        SliceMoves(u, v, at, to, at, start + |BEARER|);
        InPlaceMoves(u, at, v, to, start);
        CopyBearerMoves(u, next, v, next - at + to);
      }
    }
  }

  lemma BearerStepIsCopy(text: string, start: nat)
    requires start + |BEARER| <= |text| && Resume(text, start) <= |text|
    ensures var next := RewriteBearer(text, start);
            && next.from <= |next.text|
            && next.text[..next.from] == text[..start + |BEARER|] + InPlaceOfToken(text, start)
            && next.text[next.from..] == text[Resume(text, start)..]
  {
    var token := start + |BEARER|;
    var end := Seek(text, token, SpaceCommaSemicolonQuote);
    if token < end {
      MarkParts(text, token, end);
      MarkedPrefix(Mark(text, token, end), text, token);
    } else {
      PrefixGrows(text, token, token + |REDACTED|);
    }
  }

  lemma CopyBearerUnfolds(text: string, from: nat, start: nat)
    requires from <= |text| && FindFrom(text, BEARER, from) == Some(start)
    ensures RedactBearerFrom(text, from)
            == RedactBearerFrom(RewriteBearer(text, start).text, RewriteBearer(text, start).from)
    ensures var rest := CopyBearer(text, Resume(text, start));
            && (rest.None? ==> CopyBearer(text, from) == None)
            && (rest.Some? ==> CopyBearer(text, from)
                               == Some(text[from..start + |BEARER|] + InPlaceOfToken(text, start) + rest.value))
    ensures Resume(text, start) > |text| ==> CopyBearer(text, from) == None
  {
    hide Resume, RewriteBearer, InPlaceOfToken;
  }

  lemma RunOut(text: string, from: nat)
    requires from > |text|
    ensures RedactBearerFrom(text, from) == None
  {
  }

  /** What the bearer pass returns, when it returns, and that it panics exactly where the copy does. */
  lemma {:induction false} BearerPassIsCopy(text: string, from: nat)
    requires from <= |text|
    ensures RedactBearerFrom(text, from)
            == match CopyBearer(text, from)
               case None => None
               case Some(copy) => Some(text[..from] + copy)
    decreases |text| - from
  {
    hide FindFrom, MatchesAt, Seek, Resume, RewriteBearer, InPlaceOfToken, CopyBearer, RedactBearerFrom;
    if FindFrom(text, BEARER, from).None? {
      CopyBearerEnds(text, from);
    } else {
      var start := FindFrom(text, BEARER, from).value;
      var next, on := RewriteBearer(text, start), Resume(text, start);
      RewriteBearerTail(text, start);
      CopyBearerUnfolds(text, from, start);
      if on > |text| {
        RunOut(next.text, next.from);
      } else {
        BearerStepIsCopy(text, start);
        BearerPassIsCopy(next.text, next.from);
        CopyBearerMoves(next.text, next.from, text, on);
        if CopyBearer(text, on).Some? {
          Glue(text, from, start + |BEARER|, InPlaceOfToken(text, start), CopyBearer(text, on).value,
               next.text[..next.from]);
        }
      }
    }
  }

  lemma CopyBearerEnds(text: string, from: nat)
    requires from <= |text| && FindFrom(text, BEARER, from).None?
    ensures RedactBearerFrom(text, from) == Some(text) && CopyBearer(text, from) == Some(text[from..])
    ensures text == text[..from] + text[from..]
  {
  }

  lemma Glue(text: string, from: nat, to: nat, piece: string, rest: string, done: string)
    requires from <= to <= |text| && done == text[..to] + piece
    ensures done + rest == text[..from] + (text[from..to] + piece + rest)
  {
    PrefixGrows(text, from, to);
    Regroup(text[..from], text[from..to], piece);
    Regroup(text[..from], text[from..to] + piece, rest);
  }
}
