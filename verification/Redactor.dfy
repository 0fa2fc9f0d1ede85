/**
 The deployment-log redactor (crates/sakala-agent-core/src/logs/redactor.rs).

 Each pass edits the line in place while it scans, and the line may grow. The
 methods below keep that shape; the functions beside them say what a pass
 computes, one rewriting step at a time, and carry the theorems of the proof
 modules.
 */
module Redactor {
  import opened Wrappers
  import opened AsciiText

  const REDACTED := "[REDACTED]"
  const AUTHORIZATION := "authorization"
  const BEARER := "bearer "

  const SENSITIVE_KEYS: seq<string> := [
    "token",
    "password",
    "secret",
    "app_key",
    "database_url",
    "authorization",
    "api_key",
    "access_token",
    "refresh_token",
    "client_secret"
  ]

  const TOKEN_PREFIXES: seq<string> := ["ghp_", "gho_", "ghs_", "github_pat_"]

  /** `text` with the bytes from `cursor` up to `end` replaced by the marker. */
  function Mark(text: string, cursor: nat, end: nat): (r: string)
    requires cursor <= end <= |text|
    ensures |r| == |text| - (end - cursor) + |REDACTED|
  {
    text[..cursor] + REDACTED + text[end..]
  }

  lemma MarkParts(text: string, cursor: nat, end: nat)
    requires cursor <= end <= |text|
    ensures var r := Mark(text, cursor, end);
            && r[..cursor] == text[..cursor]
            && r[cursor..cursor + |REDACTED|] == REDACTED
            && r[cursor + |REDACTED|..] == text[end..]
  {
  }

  // ------------------------------------------------------------ assignments

  predicate IsWordByte(c: char) {
    IsAlphanumeric(c) || c == '_'
  }

  /**
   What an occurrence of a key means: not a key of its own or not assigned
   (`Plain`), or assigned with the separator at `separator` and the value
   occupying the bytes from `cursor` up to `end`.
   */
  datatype Site = Plain | Assigned(separator: nat, cursor: nat, end: nat)

  function ValueEnd(text: string, key: string, quote: Option<char>, cursor: nat): (end: nat)
    requires cursor <= |text|
    ensures cursor <= end <= |text|
  {
    if key == AUTHORIZATION && MatchesAt(text, cursor, BEARER) then
      Seek(text, cursor + |BEARER|, SpaceCommaSemicolonQuote)
    else if quote.Some? then
      Seek(text, cursor, Exactly(quote.value))
    else
      Seek(text, cursor, SpaceCommaSemicolon)
  }

  /** The opening quote of the value behind `separator`, if there is one, and where it would be. */
  function OpeningQuote(text: string, separator: nat): (r: (nat, Option<char>))
    requires separator < |text|
    ensures separator < r.0 <= |text| && (r.1.Some? ==> r.0 < |text|)
  {
    var open := Seek(text, separator + 1, NotSpace);
    (open, if open < |text| && IsQuote(text[open]) then Some(text[open]) else None)
  }

  function ValueBehind(text: string, key: string, separator: nat): (site: Site)
    requires separator < |text|
    ensures site.Assigned? && site.separator == separator < site.cursor <= site.end <= |text|
  {
    var (open, quote) := OpeningQuote(text, separator);
    var cursor := if quote.Some? then open + 1 else open;
    Assigned(separator, cursor, ValueEnd(text, key, quote, cursor))
  }

  function SiteAt(text: string, key: string, start: nat): (site: Site)
    requires start + |key| <= |text|
    ensures site.Assigned? ==>
              start + |key| <= site.separator < site.cursor <= site.end <= |text|
  {
    if start > 0 && IsWordByte(text[start - 1]) then Plain
    else
      var separator := Seek(text, start + |key|, NotSpaceOrQuote);
      if separator == |text| || (text[separator] != '=' && text[separator] != ':') then Plain
      else ValueBehind(text, key, separator)
  }

  /** A line in the middle of a pass: the bytes before `from` are done. */
  datatype Progress = Progress(text: string, from: nat)

  /** One iteration: rewrite the value behind the match at `start`, if it is assigned one. */
  function RewriteSite(text: string, key: string, start: nat): (next: Progress)
    requires |key| > 0 && start + |key| <= |text|
    ensures next.from <= |next.text|
    ensures |next.text| - next.from < |text| - start
  {
    match SiteAt(text, key, start)
    case Plain => Progress(text, start + |key|)
    case Assigned(_, cursor, end) =>
      if end > cursor then Progress(Mark(text, cursor, end), cursor + |REDACTED|)
      else Progress(text, cursor)
  }

  /** `redact_assignment` from byte `from` on: rewrite the next match, then go on behind it. */
  function RedactAssignmentFrom(text: string, key: string, from: nat): (r: string)
    requires from <= |text| && |key| > 0
    decreases |text| - from
  {
    match FindFrom(text, key, from)
    case None => text
    case Some(start) =>
      var next := RewriteSite(text, key, start);
      RedactAssignmentFrom(next.text, key, next.from)
  }

  /** The cursor loops of `redact_assignment`: advance while the byte is not in the class. */
  method Advance(value: string, from: nat, stop: Stop) returns (cursor: nat)
    requires from <= |value|
    ensures cursor == Seek(value, from, stop)
  {
    cursor := from;
    while cursor < |value| && !Stops(stop, value[cursor])
      invariant cursor <= |value|
      invariant Seek(value, cursor, stop) == Seek(value, from, stop)
    {
      cursor := cursor + 1;
    }
  }

  method LocateQuote(value: string, separator: nat) returns (cursor: nat, quote: Option<char>)
    requires separator < |value|
    ensures (cursor, quote) == OpeningQuote(value, separator)
  {
    cursor := Advance(value, separator + 1, NotSpace);
    quote := None;
    if cursor < |value| && IsQuote(value[cursor]) {
      quote := Some(value[cursor]);
    }
  }

  /** The byte scan of `redact_assignment` behind one match, and the value it finds. */
  method LocateSite(value: string, key: string, start: nat) returns (site: Site)
    requires start + |key| <= |value|
    ensures site == SiteAt(value, key, start)
  {
    if start > 0 && IsWordByte(value[start - 1]) {
      return Plain;
    }
    var separator := Advance(value, start + |key|, NotSpaceOrQuote);
    if !(separator < |value| && (value[separator] == '=' || value[separator] == ':')) {
      return Plain;
    }
    var cursor, quote := LocateQuote(value, separator);
    if quote.Some? {
      cursor := cursor + 1;
    }
    return Assigned(separator, cursor, ValueEnd(value, key, quote, cursor));
  }

  method RewriteInPlace(line: string, key: string, start: nat) returns (value: string, searchFrom: nat)
    requires |key| > 0 && start + |key| <= |line|
    ensures Progress(value, searchFrom) == RewriteSite(line, key, start)
  {
    value := line;
    var site := LocateSite(value, key, start);
    match site {
      case Plain =>
        searchFrom := start + |key|;
      case Assigned(_, cursor, end) =>
        if end > cursor {
          value := Mark(value, cursor, end);
          searchFrom := cursor + |REDACTED|;
        } else {
          searchFrom := cursor;
        }
    }
  }

  method RedactAssignment(line: string, key: string) returns (value: string)
    requires |key| > 0
    ensures value == RedactAssignmentFrom(line, key, 0)
  {
    value := line;
    var searchFrom: nat := 0;
    var next := FindFrom(value, key, searchFrom);
    // The line may grow in an iteration; what shrinks is the part still to be searched.
    while next.Some?
      invariant searchFrom <= |value| && next == FindFrom(value, key, searchFrom)
      invariant RedactAssignmentFrom(value, key, searchFrom) == RedactAssignmentFrom(line, key, 0)
      decreases |value| - searchFrom
    {
      value, searchFrom := RewriteInPlace(value, key, next.value);
      next := FindFrom(value, key, searchFrom);
    }
  }

  // ------------------------------------------------------------ bearer tokens

  /** One iteration: mark the token behind the match at `start`, unless it is empty. */
  function RewriteBearer(text: string, start: nat): (next: Progress)
    requires start + |BEARER| <= |text|
    ensures next.from == start + |BEARER| + |REDACTED|
    ensures |next.text| - next.from < |text| - start
  {
    var token := start + |BEARER|;
    var end := Seek(text, token, SpaceCommaSemicolonQuote);
    Progress(if end > token then Mark(text, token, end) else text, token + |REDACTED|)
  }

  /**
   `redact_bearer_tokens` from byte `from` on. `None` is the panic of the
   source: behind an empty token the scan position moves past the end of the
   line, and the next slice is out of range.
   */
  function RedactBearerFrom(text: string, from: nat): (r: Option<string>)
    decreases |text| - from
  {
    if from > |text| then None
    else
      match FindFrom(text, BEARER, from)
      case None => Some(text)
      case Some(start) =>
        var next := RewriteBearer(text, start);
        RedactBearerFrom(next.text, next.from)
  }

  method RewriteBearerInPlace(line: string, start: nat) returns (value: string, searchFrom: nat)
    requires start + |BEARER| <= |line|
    ensures Progress(value, searchFrom) == RewriteBearer(line, start)
  {
    value := line;
    var token := start + |BEARER|;
    var end := Seek(value, token, SpaceCommaSemicolonQuote);
    if end > token {
      value := Mark(value, token, end);
    }
    searchFrom := token + |REDACTED|;
  }

  method RedactBearerTokens(line: string) returns (value: Option<string>)
    ensures value == RedactBearerFrom(line, 0)
  {
    hide RewriteBearer;
    var text := line;
    var searchFrom: nat := 0;
    var next := FindFrom(text, BEARER, searchFrom);
    while next.Some?
      invariant searchFrom <= |text| && next == FindFrom(text, BEARER, searchFrom)
      invariant RedactBearerFrom(text, searchFrom) == RedactBearerFrom(line, 0)
      decreases |text| - searchFrom
    {
      text, searchFrom := RewriteBearerInPlace(text, next.value);
      if searchFrom > |text| {
        return None;
      }
      next := FindFrom(text, BEARER, searchFrom);
    }
    return Some(text);
  }

  // ------------------------------------------------------------ token prefixes

  /** A prefix that starts a token: its first byte is none that ends one. */
  predicate StartsToken(prefix: string) {
    |prefix| > 0 && !Stops(SpaceCommaSemicolonQuote, prefix[0])
  }

  /** One iteration: mark the token that starts at `start`. */
  function RewritePrefix(text: string, prefix: string, start: nat): (next: Progress)
    requires StartsToken(prefix) && MatchesAt(text, start, prefix)
    ensures next.from <= |next.text|
    ensures |next.text| - next.from < |text| - start
  {
    var end := Seek(text, start, SpaceCommaSemicolonQuote);
    assert end > start by { assert Fold(text[start + 0]) == Fold(prefix[0]); }
    Progress(Mark(text, start, end), start + |REDACTED|)
  }

  function RedactPrefixFrom(text: string, prefix: string, from: nat): (r: string)
    requires from <= |text| && StartsToken(prefix)
    decreases |text| - from
  {
    match FindFrom(text, prefix, from)
    case None => text
    case Some(start) =>
      FindsFirst(text, prefix, from);
      var next := RewritePrefix(text, prefix, start);
      RedactPrefixFrom(next.text, prefix, next.from)
  }

  method RedactPrefix(line: string, prefix: string) returns (value: string)
    requires StartsToken(prefix)
    ensures value == RedactPrefixFrom(line, prefix, 0)
  {
    hide StartsToken, MatchesAt, Mark;
    value := line;
    var searchFrom: nat := 0;
    var next := FindFrom(value, prefix, searchFrom);
    while next.Some?
      invariant searchFrom <= |value| && next == FindFrom(value, prefix, searchFrom)
      invariant RedactPrefixFrom(value, prefix, searchFrom) == RedactPrefixFrom(line, prefix, 0)
      decreases |value| - searchFrom
    {
      var start := next.value;
      FindsFirst(value, prefix, searchFrom);
      assert RewritePrefix(value, prefix, start).text
             == Mark(value, start, Seek(value, start, SpaceCommaSemicolonQuote));
      var end := Seek(value, start, SpaceCommaSemicolonQuote);
      value := Mark(value, start, end);
      searchFrom := start + |REDACTED|;
      next := FindFrom(value, prefix, searchFrom);
    }
  }

  // ------------------------------------------------------------ the whole line

  /** The assignment passes for the first `n` keys, in order. */
  function RedactKeys(line: string, n: nat): (r: string)
    requires n <= |SENSITIVE_KEYS|
  {
    if n == 0 then line
    else RedactAssignmentFrom(RedactKeys(line, n - 1), SENSITIVE_KEYS[n - 1], 0)
  }

  /** The prefix passes for the first `n` token prefixes, in order. */
  function RedactPrefixes(line: string, n: nat): (r: string)
    requires n <= |TOKEN_PREFIXES|
  {
    if n == 0 then line
    else RedactPrefixFrom(RedactPrefixes(line, n - 1), TOKEN_PREFIXES[n - 1], 0)
  }

  /** `redact_line`; `None` when the bearer pass panics. */
  function RedactLine(line: string): (r: Option<string>) {
    match RedactBearerFrom(RedactKeys(line, |SENSITIVE_KEYS|), 0)
    case None => None
    case Some(text) => Some(RedactPrefixes(text, |TOKEN_PREFIXES|))
  }

  method RedactLineInPlace(line: string) returns (result: Option<string>)
    ensures result == RedactLine(line)
  {
    hide RedactAssignmentFrom, RedactBearerFrom, RedactPrefixFrom;
    var text := line;
    for i := 0 to |SENSITIVE_KEYS|
      invariant text == RedactKeys(line, i)
    {
      text := RedactAssignment(text, SENSITIVE_KEYS[i]);
    }
    result := RedactBearerTokens(text);
    if result.None? {
      return;
    }
    ghost var swept := result.value;
    text := result.value;
    for i := 0 to |TOKEN_PREFIXES|
      invariant text == RedactPrefixes(swept, i)
    {
      text := RedactPrefix(text, TOKEN_PREFIXES[i]);
    }
    result := Some(text);
  }
}
