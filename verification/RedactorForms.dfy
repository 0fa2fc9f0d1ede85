/**
 Redaction, written as equations between lines: what becomes of a line that
 consists of something, a secret in one of its forms, and a rest.
 */
module RedactorForms {
  import opened Wrappers
  import opened AsciiText
  import opened Redactor
  import opened RedactorSites
  import opened RedactorTheorems
  import opened RedactorLine
  import opened RedactorUtf8
  import opened RedactorTokens
  import opened RedactorValues

  // ------------------------------------------------------------ the same, written as a line

  /** A line with an assignment in it, piece by piece; `quote` is the opening one, if there is one. */
  datatype Assignment = Assignment(
    pre: string,
    word: string,
    gap: string,
    separator: char,
    spaces: string,
    quote: Option<char>,
    value: string,
    rest: string)

  function Quoted(quote: Option<char>): (text: string) {
    if quote.Some? then [quote.value] else []
  }

  /** From the key to the start of the value. */
  function Lead(a: Assignment): (text: string) {
    a.word + a.gap + [a.separator] + a.spaces + Quoted(a.quote)
  }

  function Line(a: Assignment): (text: string) {
    a.pre + Lead(a) + a.value + a.rest
  }

  predicate AllIn(text: string, quotes: bool) {
    forall k :: 0 <= k < |text| ==> IsWhitespace(text[k]) || (quotes && IsQuote(text[k]))
  }

  /** No byte that ends a bare value. */
  predicate IsBare(text: string) {
    forall k :: 0 <= k < |text| ==> !IsWhitespace(text[k]) && text[k] != ',' && text[k] != ';'
  }

  predicate WellFormed(a: Assignment, key: string) {
    && |a.word| == |key| && MatchesAt(a.word, 0, key)
    && (a.pre != [] ==> !IsWordByte(a.pre[|a.pre| - 1]))
    && AllIn(a.gap, true) && (a.separator == '=' || a.separator == ':') && AllIn(a.spaces, false)
    && a.value != []
  }

  /** A quoted value up to the same quote, or a bare one. */
  predicate IsPlainValue(quote: Option<char>, value: string, rest: string) {
    && value != []
    && if quote.Some? then
         && IsQuote(quote.value)
         && (forall k :: 0 <= k < |value| ==> value[k] != quote.value)
         && (rest != [] ==> rest[0] == quote.value)
       else
         IsBare(value) && !IsQuote(value[0]) && (rest != [] ==> !IsBare(rest[..1]))
  }

  /** `bearer` and a token, where the key is `authorization`. */
  predicate IsBearerValue(quote: Option<char>, value: string, rest: string) {
    && (quote.Some? ==> IsQuote(quote.value))
    && MatchesAt(value, 0, BEARER)
    && IsBare(value[|BEARER|..]) && '"' !in value[|BEARER|..]
    && (rest != [] ==> !IsBare(rest[..1]) || rest[0] == '"')
  }

  predicate IsAssignment(a: Assignment, key: string) {
    && WellFormed(a, key)
    && if key == AUTHORIZATION && MatchesAt(a.value + a.rest, 0, BEARER) then IsBearerValue(a.quote, a.value, a.rest)
       else IsPlainValue(a.quote, a.value, a.rest)
  }

  lemma Pieces(a: Assignment)
    ensures var text, p := Line(a), |a.pre|;
            var cursor := p + |Lead(a)|;
            && text[..p] == a.pre && text[p..cursor] == Lead(a)
            && |text| == cursor + |a.value| + |a.rest|
            && text[cursor..cursor + |a.value|] == a.value && text[cursor + |a.value|..] == a.rest
  {
  }

  lemma LeadPieces(a: Assignment)
    ensures var lead, n, g, s := Lead(a), |a.word|, |a.gap|, |a.spaces|;
            && |lead| == n + g + 1 + s + |Quoted(a.quote)|
            && lead[..n] == a.word && lead[n..n + g] == a.gap && lead[n + g] == a.separator
            && lead[n + g + 1..n + g + 1 + s] == a.spaces && lead[n + g + 1 + s..] == Quoted(a.quote)
  {
  }

  function SeparatorOf(a: Assignment): (separator: nat) {
    |a.pre| + |a.word| + |a.gap|
  }

  function OpenOf(a: Assignment): (open: nat) {
    SeparatorOf(a) + 1 + |a.spaces|
  }

  function CursorOf(a: Assignment): (cursor: nat)
    ensures cursor == |a.pre| + |Lead(a)|
  {
    OpenOf(a) + |Quoted(a.quote)|
  }

  lemma LeadByte(a: Assignment, k: nat)
    requires k < |Lead(a)|
    ensures |a.pre| + k < |Line(a)| && Line(a)[|a.pre| + k] == Lead(a)[k]
  {
    Pieces(a);
    hide Line, Lead;
    assert Line(a)[|a.pre|..|a.pre| + |Lead(a)|][k] == Line(a)[|a.pre| + k];
  }

  lemma KeyReads(a: Assignment, key: string)
    requires WellFormed(a, key)
    ensures MatchesAt(Line(a), |a.pre|, key)
  {
    var n := |a.word|;
    LeadPieces(a);
    Pieces(a);
    hide Line, Lead;
    forall k | 0 <= k < n ensures Fold(Line(a)[|a.pre| + k]) == Fold(key[k]) {
      LeadByte(a, k);
      assert Lead(a)[..n][k] == a.word[k];
      MatchByte(a.word, 0, key, k);
    }
  }

  lemma GapReads(a: Assignment, k: nat)
    requires AllIn(a.gap, true) && |a.pre| + |a.word| <= k < SeparatorOf(a)
    ensures k < |Line(a)| && (IsWhitespace(Line(a)[k]) || IsQuote(Line(a)[k]))
  {
    var p, n := |a.pre|, |a.word|;
    LeadPieces(a);
    hide Line, Lead, IsWhitespace, IsQuote;
    LeadByte(a, k - p);
    assert Lead(a)[n..n + |a.gap|][k - p - n] == Lead(a)[k - p];
  }

  lemma SeparatorReads(a: Assignment, key: string)
    requires WellFormed(a, key)
    ensures Separated(Line(a), key, |a.pre|, SeparatorOf(a))
  {
    var text, p := Line(a), |a.pre|;
    LeadPieces(a);
    Pieces(a);
    assert p > 0 ==> text[..p][p - 1] == text[p - 1];
    hide Line, Lead, IsWhitespace, IsQuote, MatchesAt, IsWordByte;
    forall k | p + |key| <= k < SeparatorOf(a) ensures IsWhitespace(text[k]) || IsQuote(text[k]) {
      GapReads(a, k);
    }
    LeadByte(a, |a.word| + |a.gap|);
  }

  lemma OpensReads(a: Assignment, key: string)
    requires IsAssignment(a, key)
    ensures OpensAfter(Line(a), SeparatorOf(a), OpenOf(a))
    ensures OpenOf(a) < |Line(a)|
    ensures Line(a)[OpenOf(a)] == if a.quote.Some? then a.quote.value else a.value[0]
    ensures IsQuote(Line(a)[OpenOf(a)]) <==> a.quote.Some?
  {
    var text, p, open := Line(a), |a.pre|, OpenOf(a);
    LeadPieces(a);
    var lead, from := Lead(a), |a.word| + |a.gap| + 1;
    FirstOfValue(a);
    hide Line, Lead;
    forall k | SeparatorOf(a) < k < open ensures IsWhitespace(text[k]) {
      LeadByte(a, k - p);
      assert lead[from..from + |a.spaces|][k - p - from] == lead[k - p];
    }
    if a.quote.Some? {
      LeadByte(a, open - p);
      assert lead[from + |a.spaces|..][0] == lead[open - p];
    } else {
      MatchOrBare(a, key);
    }
  }

  lemma FirstOfValue(a: Assignment)
    requires a.value != []
    ensures CursorOf(a) < |Line(a)| && Line(a)[CursorOf(a)] == a.value[0]
  {
    Pieces(a);
    hide Line, Lead;
    var c := CursorOf(a);
    assert Line(a)[c..c + |a.value|][0] == Line(a)[c];
  }

  lemma MatchOrBare(a: Assignment, key: string)
    requires IsAssignment(a, key) && a.quote.None?
    ensures !IsWhitespace(a.value[0]) && !IsQuote(a.value[0])
  {
    if key == AUTHORIZATION && MatchesAt(a.value + a.rest, 0, BEARER) {
      MatchByte(a.value, 0, BEARER, 0);
    }
  }

  lemma ValueByte(a: Assignment, k: nat)
    requires k < |a.value + a.rest|
    ensures CursorOf(a) + k < |Line(a)| && Line(a)[CursorOf(a) + k] == (a.value + a.rest)[k]
  {
    var c := CursorOf(a);
    Pieces(a);
    hide Line, Lead;
    if k < |a.value| {
      assert Line(a)[c..c + |a.value|][k] == Line(a)[c + k];
    } else {
      assert Line(a)[c + |a.value|..][k - |a.value|] == Line(a)[c + k];
    }
  }

  lemma BearerReads(a: Assignment)
    ensures MatchesAt(Line(a), CursorOf(a), BEARER) <==> MatchesAt(a.value + a.rest, 0, BEARER)
  {
    var both := a.value + a.rest;
    Pieces(a);
    assert |Line(a)| == CursorOf(a) + |both|;
    hide Line, Lead;
    forall k | 0 <= k < |BEARER| && k < |both|
      ensures Fold(Line(a)[CursorOf(a) + k]) == Fold(BEARER[k]) <==> Fold(both[0 + k]) == Fold(BEARER[k])
    {
      ValueByte(a, k);
    }
  }

  lemma ValueReads(a: Assignment, key: string)
    requires IsAssignment(a, key)
    ensures ValueAt(Line(a), key, OpenOf(a), CursorOf(a), CursorOf(a) + |a.value|)
  {
    var text, c, both := Line(a), CursorOf(a), a.value + a.rest;
    var end := c + |a.value|;
    OpensReads(a, key);
    BearerReads(a);
    Pieces(a);
    hide Line, Lead, MatchesAt;
    forall k | c <= k < end ensures text[k] == a.value[k - c] {
      ValueByte(a, k - c);
    }
    if a.rest != [] {
      ValueByte(a, |a.value|);
    }
    if key == AUTHORIZATION && MatchesAt(both, 0, BEARER) {
      TokenReads(a, text, c);
    } else {
      PlainReads(a, text, c);
    }
  }

  lemma PlainReads(a: Assignment, text: string, c: nat)
    requires IsPlainValue(a.quote, a.value, a.rest) && c + |a.value| <= |text|
    requires forall k :: c <= k < c + |a.value| ==> text[k] == a.value[k - c]
    requires c + |a.value| < |text| ==> a.rest != [] && text[c + |a.value|] == a.rest[0]
    ensures a.quote.Some? ==> EndsQuoted(text, a.quote.value, c, c + |a.value|)
    ensures a.quote.None? ==> EndsBare(text, c, c + |a.value|)
  {
    assert a.rest != [] ==> a.rest[..1] == [a.rest[0]];
  }

  lemma TokenReads(a: Assignment, text: string, c: nat)
    requires IsBearerValue(a.quote, a.value, a.rest) && c + |a.value| <= |text|
    requires forall k :: c <= k < c + |a.value| ==> text[k] == a.value[k - c]
    requires c + |a.value| < |text| ==> a.rest != [] && text[c + |a.value|] == a.rest[0]
    ensures EndsToken(text, c + |BEARER|, c + |a.value|)
  {
    var n := |BEARER|;
    forall k | c + n <= k < c + |a.value|
      ensures !IsWhitespace(text[k]) && text[k] != ',' && text[k] != ';' && text[k] != '"'
    {
      assert a.value[n..][k - c - n] == text[k];
    }
    assert a.rest != [] ==> a.rest[..1] == [a.rest[0]];
  }

  lemma AssignmentReads(a: Assignment, key: string)
    requires IsAssignment(a, key)
    ensures MatchesAt(Line(a), |a.pre|, key)
    ensures IsAssigned(Line(a), key, |a.pre|, CursorOf(a), CursorOf(a) + |a.value|)
  {
    KeyReads(a, key);
    SeparatorReads(a, key);
    OpensReads(a, key);
    ValueReads(a, key);
    hide Line, Lead, MatchesAt, Separated, OpensAfter, ValueAt, IsAssignment;
    assert AssignedAt(Line(a), key, |a.pre|, SeparatorOf(a), OpenOf(a), CursorOf(a), CursorOf(a) + |a.value|);
  }

  /**
   In a line that reads `pre`, a key in any letter case behind no word byte,
   spacing and quotes, `=` or `:`, spacing, a non-empty value and `rest`, the pass
   for that key writes the marker in place of the value, and does to `pre` and
   `rest` what it would do to them alone; unless the whole assignment lies in a
   value that is assigned further left.
   */
  lemma AssignmentIsMarked(a: Assignment, key: string)
    requires IsKey(key) && IsAssignment(a, key)
    ensures |key| > 0
    ensures Covered(Line(a), key, |a.pre|)
            || RedactAssignmentFrom(Line(a), key, 0)
               == RedactAssignmentFrom(a.pre, key, 0) + Lead(a) + REDACTED + RedactAssignmentFrom(a.rest, key, 0)
  {
    hide Line, Lead, IsAssigned, Covered, IsKey, MatchesAt, RedactAssignmentFrom;
    KeyIsLong(key);
    AssignmentReads(a, key);
    Pieces(a);
    if !Covered(Line(a), key, |a.pre|) {
      ValueIsMarked(Line(a), key, |a.pre|, CursorOf(a), CursorOf(a) + |a.value|);
    }
  }

  // ------------------------------------------------------------ tokens, written as a line

  /** No byte that ends a token. */
  predicate IsToken(text: string) {
    IsBare(text) && '"' !in text
  }

  /** What follows a token: nothing, or a byte that ends it. */
  predicate StopsToken(rest: string) {
    rest != [] ==> !IsToken(rest[..1])
  }

  lemma TokenSeek(pre: string, token: string, rest: string)
    requires IsToken(token) && StopsToken(rest)
    ensures Seek(pre + token + rest, |pre|, SpaceCommaSemicolonQuote) == |pre| + |token|
  {
    var text, end := pre + token + rest, |pre| + |token|;
    forall k | |pre| <= k < end ensures !Stops(SpaceCommaSemicolonQuote, text[k]) {
      assert text[k] == token[k - |pre|];
      TokenByte(token, k - |pre|);
    }
    if rest != [] {
      assert text[end] == rest[0];
      EndByte(rest);
    }
    hide IsToken, StopsToken, Stops;
    SeekIs(text, |pre|, SpaceCommaSemicolonQuote, end);
  }

  lemma TokenByte(token: string, k: nat)
    requires IsToken(token) && k < |token|
    ensures !Stops(SpaceCommaSemicolonQuote, token[k])
  {
  }

  lemma EndByte(rest: string)
    requires StopsToken(rest) && rest != []
    ensures Stops(SpaceCommaSemicolonQuote, rest[0])
  {
    assert rest[..1] == [rest[0]];
  }

  lemma MatchInside(pre: string, word: string, rest: string, needle: string)
    requires |word| == |needle| && MatchesAt(word, 0, needle)
    ensures MatchesAt(pre + word + rest, |pre|, needle)
  {
    var text := pre + word + rest;
    forall k | 0 <= k < |needle| ensures Fold(text[|pre| + k]) == Fold(needle[k]) {
      assert text[|pre| + k] == word[0 + k];
    }
  }

  lemma WholeBearerPass(text: string)
    ensures RedactBearerFrom(text, 0) == CopyBearer(text, 0)
  {
    hide RedactBearerFrom, CopyBearer;
    BearerPassIsCopy(text, 0);
    if CopyBearer(text, 0).Some? {
      assert text[..0] + CopyBearer(text, 0).value == CopyBearer(text, 0).value;
    }
  }

  lemma FirstBearer(text: string, p: nat)
    requires FindFrom(text, BEARER, 0) == Some(p)
    ensures var next := Resume(text, p);
            && (next > |text| ==> RedactBearerFrom(text, 0) == None)
            && (next <= |text| ==>
                  RedactBearerFrom(text, 0)
                  == match RedactBearerFrom(text[next..], 0)
                     case None => None
                     case Some(r) => Some(text[..p + |BEARER|] + InPlaceOfToken(text, p) + r))
  {
    hide FindFrom, MatchesAt, Resume, InPlaceOfToken, RedactBearerFrom, CopyBearer;
    var next := Resume(text, p);
    WholeBearerPass(text);
    CopyBearerUnfolds(text, 0, p);
    if next <= |text| {
      assert text[next..][0..] == text[next..];
      WholeBearerPass(text[next..]);
      CopyBearerMoves(text, next, text[next..], 0);
      assert text[0..p + |BEARER|] == text[..p + |BEARER|];
    }
  }

  /** The first `bearer ` of a line: its token becomes the marker, and the rest what it becomes on its own. */
  lemma BearerTokenIsMarked(pre: string, word: string, token: string, rest: string)
    requires |word| == |BEARER| && MatchesAt(word, 0, BEARER) && token != [] && IsToken(token) && StopsToken(rest)
    requires forall j: nat :: j < |pre| ==> !MatchesAt(pre + word + token + rest, j, BEARER)
    ensures RedactBearerFrom(pre + word + token + rest, 0)
            == match RedactBearerFrom(rest, 0)
               case None => None
               case Some(r) => Some(pre + word + REDACTED + r)
  {
    hide FindFrom, MatchesAt, Seek, IsToken, StopsToken, RedactBearerFrom, Resume, InPlaceOfToken;
    FirstTokenFound(pre, word, token, rest);
    FirstBearer(pre + word + token + rest, |pre|);
    TokenInPlace(pre + word, token, rest, |pre|);
  }

  lemma FirstTokenFound(pre: string, word: string, token: string, rest: string)
    requires |word| == |BEARER| && MatchesAt(word, 0, BEARER)
    requires forall j: nat :: j < |pre| ==> !MatchesAt(pre + word + token + rest, j, BEARER)
    ensures FindFrom(pre + word + token + rest, BEARER, 0) == Some(|pre|)
  {
    hide FindFrom, MatchesAt;
    assert pre + word + token + rest == pre + word + (token + rest);
    FirstIsFound(pre, word, token + rest, BEARER);
  }

  lemma TokenInPlace(head: string, token: string, rest: string, p: nat)
    requires |head| == p + |BEARER| && token != [] && IsToken(token) && StopsToken(rest)
    ensures var text := head + token + rest;
            && Resume(text, p) == |head| + |token| && InPlaceOfToken(text, p) == REDACTED
            && text[..|head|] == head && text[|head| + |token|..] == rest
  {
    hide Seek, IsToken, StopsToken;
    TokenSeek(head, token, rest);
    TokenParts(head, token, rest);
  }

  lemma TokenParts(a: string, b: string, c: string)
    ensures (a + b + c)[..|a|] == a && (a + b + c)[|a| + |b|..] == c
  {
  }

  /** Behind an empty token, ten bytes are skipped, and without ten bytes the pass panics. */
  lemma EmptyTokenSkips(pre: string, word: string, rest: string)
    requires |word| == |BEARER| && MatchesAt(word, 0, BEARER) && StopsToken(rest)
    requires forall j: nat :: j < |pre| ==> !MatchesAt(pre + word + rest, j, BEARER)
    ensures var n := |REDACTED|;
            && (|rest| < n ==> RedactBearerFrom(pre + word + rest, 0) == None)
            && (|rest| >= n ==>
                  RedactBearerFrom(pre + word + rest, 0)
                  == match RedactBearerFrom(rest[n..], 0)
                     case None => None
                     case Some(r) => Some(pre + word + rest[..n] + r))
  {
    hide FindFrom, MatchesAt, Seek, IsToken, RedactBearerFrom;
    var text, n := pre + word + rest, |REDACTED|;
    FirstIsFound(pre, word, rest, BEARER);
    NoToken(pre + word, rest);
    FirstBearer(text, |pre|);
    if |rest| >= n {
      SkippedParts(pre + word, rest, n);
    }
  }

  lemma NoToken(head: string, rest: string)
    requires StopsToken(rest)
    ensures Seek(head + rest, |head|, SpaceCommaSemicolonQuote) == |head|
  {
    assert head + [] + rest == head + rest;
    TokenSeek(head, [], rest);
  }

  lemma SkippedParts(head: string, rest: string, n: nat)
    requires n <= |rest|
    ensures (head + rest)[..|head|] == head && (head + rest)[|head|..|head| + n] == rest[..n]
    ensures (head + rest)[|head| + n..] == rest[n..]
  {
  }

  lemma FirstIsFound(pre: string, word: string, rest: string, needle: string)
    requires |word| == |needle| && MatchesAt(word, 0, needle)
    requires forall j: nat :: j < |pre| ==> !MatchesAt(pre + word + rest, j, needle)
    ensures MatchesAt(pre + word + rest, |pre|, needle) && FindFrom(pre + word + rest, needle, 0) == Some(|pre|)
  {
    MatchInside(pre, word, rest, needle);
    hide MatchesAt, FindFrom;
    FindIs(pre + word + rest, needle, 0, |pre|);
  }

  lemma FirstPrefixed(text: string, prefix: string, p: nat)
    requires StartsToken(prefix) && MatchesAt(text, p, prefix) && FindFrom(text, prefix, 0) == Some(p)
    ensures var end := TokenEnd(text, prefix, p);
            RedactPrefixFrom(text, prefix, 0) == text[..p] + REDACTED + RedactPrefixFrom(text[end..], prefix, 0)
  {
    hide FindFrom, StartsToken, RedactPrefixFrom, CopyPrefixed;
    var end := TokenEnd(text, prefix, p);
    assert text[end..][0..] == text[end..] && text[0..p] == text[..p];
    PrefixPassIsCopy(text, prefix, 0);
    PrefixPassIsCopy(text[end..], prefix, 0);
    CopyPrefixedUnfolds(text, prefix, 0, p);
    CopyPrefixedMoves(text, end, text[end..], 0, prefix);
  }

  /** The first token with the prefix: it becomes the marker as a whole, and the rest what it becomes on its own. */
  lemma PrefixedTokenIsMarked(pre: string, token: string, rest: string, prefix: string)
    requires StartsToken(prefix) && MatchesAt(token, 0, prefix) && IsToken(token) && StopsToken(rest)
    requires forall j: nat :: j < |pre| ==> !MatchesAt(pre + token + rest, j, prefix)
    ensures RedactPrefixFrom(pre + token + rest, prefix, 0) == pre + REDACTED + RedactPrefixFrom(rest, prefix, 0)
  {
    hide FindFrom, Seek, IsToken, StopsToken, RedactPrefixFrom, StartsToken, MatchesAt;
    var text, n := pre + token + rest, |prefix|;
    MatchEnd(token, prefix);
    Splits(pre, token, rest, n);
    FirstIsFound(pre, token[..n], token[n..] + rest, prefix);
    TokenSeek(pre, token, rest);
    TokenParts(pre, token, rest);
    FirstPrefixed(text, prefix, |pre|);
  }

  lemma Splits(pre: string, token: string, rest: string, n: nat)
    requires n <= |token|
    ensures pre + token[..n] + (token[n..] + rest) == pre + token + rest
    ensures (pre + token + rest)[..|pre|] == pre
  {
  }

  lemma MatchEnd(token: string, prefix: string)
    requires MatchesAt(token, 0, prefix)
    ensures |prefix| <= |token| && MatchesAt(token[..|prefix|], 0, prefix)
  {
    forall k | 0 <= k < |prefix| ensures Fold(token[..|prefix|][0 + k]) == Fold(prefix[k]) {
      assert Fold(token[0 + k]) == Fold(prefix[k]);
    }
  }

  // ------------------------------------------------------------ the whole line

  /** No occurrence of the key is assigned a value other than the marker. */
  ghost predicate NoValueOf(text: string, key: string) {
    forall s: nat, cursor: nat, end: nat ::
      MatchesAt(text, s, key) && IsAssigned(text, key, s, cursor, end) ==>
        cursor == end || (cursor < end <= |text| && text[cursor..end] == REDACTED)
  }

  lemma NoValueIsClean(text: string, key: string)
    requires |key| > 0
    ensures NoValueOf(text, key) <==> Clean(text, key, false, 0)
  {
    hide AssignedAt, SiteAt, MatchesAt;
    forall s: nat | MatchesAt(text, s, key) ensures s + |key| <= |text| {
      MatchEnds(text, s, key);
    }
    if NoValueOf(text, key) {
      forall s: nat | MatchesAt(text, s, key) ensures SiteOk(text, key, false, s) {
        if SiteAt(text, key, s).Assigned? {
          SiteIsAssigned(text, key, s);
        }
      }
    }
    if Clean(text, key, false, 0) {
      forall s: nat, cursor: nat, end: nat | MatchesAt(text, s, key) && IsAssigned(text, key, s, cursor, end)
        ensures cursor == end || (cursor < end <= |text| && text[cursor..end] == REDACTED)
      {
        var separator: nat, open: nat :| AssignedAt(text, key, s, separator, open, cursor, end);
        AssignedIsSite(text, key, s, separator, open, cursor, end);
        assert SiteOk(text, key, false, s);
      }
    }
  }

  /** Where only one key is assigned values, only its pass changes the line. */
  lemma {:induction false} OtherKeysIdle(line: string, i: nat, n: nat)
    requires i < |SENSITIVE_KEYS| && n <= |SENSITIVE_KEYS| && |SENSITIVE_KEYS[i]| > 0
    requires forall j: nat :: j < |SENSITIVE_KEYS| && j != i ==> NoValueOf(line, SENSITIVE_KEYS[j])
    ensures RedactKeys(line, n) == if n <= i then line else RedactAssignmentFrom(line, SENSITIVE_KEYS[i], 0)
    decreases n
  {
    hide NoValueOf, RedactAssignmentFrom, Clean;
    if n > 0 {
      OtherKeysIdle(line, i, n - 1);
      if n - 1 != i {
        OneKeyIdle(line, i, n - 1);
      }
    }
  }

  lemma OneKeyIdle(line: string, i: nat, j: nat)
    requires i < |SENSITIVE_KEYS| && j < |SENSITIVE_KEYS| && i != j && NoValueOf(line, SENSITIVE_KEYS[j])
    ensures |SENSITIVE_KEYS[i]| > 0 && |SENSITIVE_KEYS[j]| > 0
    ensures RedactAssignmentFrom(line, SENSITIVE_KEYS[j], 0) == line
    ensures var r := RedactAssignmentFrom(line, SENSITIVE_KEYS[i], 0);
            RedactAssignmentFrom(r, SENSITIVE_KEYS[j], 0) == r
  {
    hide NoValueOf, RedactAssignmentFrom, Clean;
    var key, other := SENSITIVE_KEYS[j], SENSITIVE_KEYS[i];
    KeyFacts(i);
    KeyFacts(j);
    KeysApart(j, i);
    NoValueIsClean(line, key);
    CleanIsFixed(line, key, 0);
    KeyPassKeeps(line, other, 0, key, false);
    CleanIsFixed(RedactAssignmentFrom(line, other, 0), key, 0);
  }

  lemma FreeIsFixed(text: string)
    requires Free(text, BEARER)
    ensures RedactBearerFrom(text, 0) == Some(text)
  {
    FindsFirst(text, BEARER, 0);
  }

  lemma {:induction false} FreeOfPrefixesIsFixed(text: string, n: nat)
    requires n <= |TOKEN_PREFIXES| && forall j: nat :: j < |TOKEN_PREFIXES| ==> Free(text, TOKEN_PREFIXES[j])
    ensures RedactPrefixes(text, n) == text
    decreases n
  {
    if n > 0 {
      FreeOfPrefixesIsFixed(text, n - 1);
      FindsFirst(text, TOKEN_PREFIXES[n - 1], 0);
    }
  }

  /**
   `redact_line` on a line without bearer and prefixed tokens on which only one
   key is assigned anything: it is the pass for that key.
   */
  lemma LineIsOnePass(line: string, i: nat)
    requires i < |SENSITIVE_KEYS|
    requires forall j: nat :: j < |SENSITIVE_KEYS| && j != i ==> NoValueOf(line, SENSITIVE_KEYS[j])
    requires Free(line, BEARER) && forall j: nat :: j < |TOKEN_PREFIXES| ==> Free(line, TOKEN_PREFIXES[j])
    ensures |SENSITIVE_KEYS[i]| > 0
    ensures RedactLine(line) == Some(RedactAssignmentFrom(line, SENSITIVE_KEYS[i], 0))
  {
    hide NoValueOf, RedactAssignmentFrom, RedactBearerFrom, Free, StaysOut;
    KeyFacts(i);
    var key := SENSITIVE_KEYS[i];
    KeyIsLong(key);
    OtherKeysIdle(line, i, |SENSITIVE_KEYS|);
    var r := RedactAssignmentFrom(line, key, 0);
    BearerIsNoKey();
    KeyPassKeepsFree(line, key, 0, BEARER);
    FreeIsFixed(r);
    forall j: nat | j < |TOKEN_PREFIXES| ensures Free(r, TOKEN_PREFIXES[j]) {
      PrefixFacts(j);
      NeedleStaysOut(TOKEN_PREFIXES[j]);
      KeyPassKeepsFree(line, key, 0, TOKEN_PREFIXES[j]);
    }
    FreeOfPrefixesIsFixed(r, |TOKEN_PREFIXES|);
  }

  lemma BearerIsNoKey()
    ensures StaysOut(BEARER)
  {
  }

  /** The assignment of such a line is redacted, and the line around it stays what that one pass makes of it. */
  lemma LineMarksAssignment(a: Assignment, i: nat)
    requires i < |SENSITIVE_KEYS| && IsAssignment(a, SENSITIVE_KEYS[i])
    requires forall j: nat :: j < |SENSITIVE_KEYS| && j != i ==> NoValueOf(Line(a), SENSITIVE_KEYS[j])
    requires Free(Line(a), BEARER) && forall j: nat :: j < |TOKEN_PREFIXES| ==> Free(Line(a), TOKEN_PREFIXES[j])
    requires !Covered(Line(a), SENSITIVE_KEYS[i], |a.pre|)
    ensures |SENSITIVE_KEYS[i]| > 0
    ensures RedactLine(Line(a))
            == Some(RedactAssignmentFrom(a.pre, SENSITIVE_KEYS[i], 0) + Lead(a) + REDACTED
                    + RedactAssignmentFrom(a.rest, SENSITIVE_KEYS[i], 0))
  {
    hide NoValueOf, RedactAssignmentFrom, RedactLine, Free, Covered, IsAssignment, Line, Lead;
    KeyFacts(i);
    LineIsOnePass(Line(a), i);
    AssignmentIsMarked(a, SENSITIVE_KEYS[i]);
  }

  /**
   However the redacted line is read as a key with a value, the value is the
   marker; only behind `authorization`, and only where `Trails` says so, may
   something follow the marker.
   */
  lemma NoAssignmentSurvives(line: string, a: Assignment, i: nat)
    requires RedactLine(line) == Some(Line(a)) && i < |SENSITIVE_KEYS| && IsAssignment(a, SENSITIVE_KEYS[i])
    ensures a.value == REDACTED || (Trails(line, i) && REDACTED <= a.value)
  {
    hide RedactLine, Trails, Line, Lead, IsAssignment, AssignedAt, SiteAt, IsKey, MatchesAt;
    var key, text, p := SENSITIVE_KEYS[i], Line(a), |a.pre|;
    KeyFacts(i);
    KeyIsLong(key);
    NoSecretSurvives(line);
    AssignmentReads(a, key);
    ValueIsThere(a, key);
    var c := CursorOf(a);
    var separator: nat, open: nat :| AssignedAt(text, key, p, separator, open, c, c + |a.value|);
    AssignedIsSite(text, key, p, separator, open, c, c + |a.value|);
    assert SiteOk(text, key, Trails(line, i), p);
    ValueIn(a, |a.value|);
    if |REDACTED| <= |a.value| {
      ValueIn(a, |REDACTED|);
    }
  }

  lemma ValueIn(a: Assignment, n: nat)
    requires n <= |a.value|
    ensures CursorOf(a) + n <= |Line(a)| && Line(a)[CursorOf(a)..CursorOf(a) + n] == a.value[..n]
  {
    Pieces(a);
    hide Line, Lead;
    var c := CursorOf(a);
    assert Line(a)[c..c + |a.value|][..n] == Line(a)[c..c + n];
  }

  lemma ValueIsThere(a: Assignment, key: string)
    requires IsAssignment(a, key)
    ensures a.value != []
  {
  }
}
