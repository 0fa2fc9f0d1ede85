/** Redaction of some concrete lines. */
module RedactorExamples {
  import opened Wrappers
  import opened AsciiText
  import opened Redactor
  import opened RedactorSites
  import opened RedactorTwice
  import opened RedactorUtf8
  import opened RedactorBearers
  import opened RedactorBearerLine
  import opened RedactorValues
  import opened RedactorForms
  import opened RedactorLine
  import opened BoundedLog

  /** The needle cannot sit anywhere in the text. */
  predicate Lacks(text: string, needle: string)
    requires |needle| >= 3
  {
    forall s :: 0 <= s <= |text| - |needle| ==> Clash(text, s, needle)
  }

  lemma LacksMatch(text: string, needle: string, s: nat)
    requires |needle| >= 3 && Lacks(text, needle)
    ensures !MatchesAt(text, s, needle)
  {
    assert MatchesAt(text, s, needle) ==>
        Fold(text[s + 0]) == Fold(needle[0]) && Fold(text[s + 1]) == Fold(needle[1])
        && Fold(text[s + 2]) == Fold(needle[2]);
    assert s + |needle| <= |text| ==> Clash(text, s, needle);
  }

  lemma BearerIsAt(text: string, at: nat)
    requires at + |BEARER| <= |text| && text[at..at + |BEARER|] == BEARER
    ensures MatchesAt(text, at, BEARER)
  {
    forall k | 0 <= k < |BEARER| ensures Fold(text[at + k]) == Fold(BEARER[k]) {
      assert text[at..at + |BEARER|][k] == text[at + k];
    }
  }

  lemma NotFound(text: string, needle: string)
    requires |needle| >= 3 && Lacks(text, needle)
    ensures FindFrom(text, needle, 0) == None
  {
    FindsFirst(text, needle, 0);
    if FindFrom(text, needle, 0).Some? {
      LacksMatch(text, needle, FindFrom(text, needle, 0).value);
    }
  }

  /** Keys that do not occur leave the text as it is. */
  lemma {:induction false} KeysLeave(line: string, from: nat, upTo: nat)
    requires from <= upTo <= |SENSITIVE_KEYS|
    requires forall i :: from <= i < upTo ==>
               |SENSITIVE_KEYS[i]| >= 3 && Lacks(RedactKeys(line, from), SENSITIVE_KEYS[i])
    ensures RedactKeys(line, upTo) == RedactKeys(line, from)
    decreases upTo
  {
    if from < upTo {
      KeysLeave(line, from, upTo - 1);
      NotFound(RedactKeys(line, from), SENSITIVE_KEYS[upTo - 1]);
    }
  }

  lemma {:induction false} PrefixesLeave(text: string, n: nat)
    requires n <= |TOKEN_PREFIXES|
    requires forall i :: 0 <= i < n ==> |TOKEN_PREFIXES[i]| >= 3 && Lacks(text, TOKEN_PREFIXES[i])
    ensures RedactPrefixes(text, n) == text
    decreases n
  {
    if n > 0 {
      PrefixesLeave(text, n - 1);
      NotFound(text, TOKEN_PREFIXES[n - 1]);
    }
  }

  // ------------------------------------------------------------ a line too short to hold anything

  /** No key and no prefix has fewer than four characters. */
  lemma ShortLineStays(line: string)
    requires |line| < 4
    ensures RedactLine(line) == Some(line)
  {
    KeysLeave(line, 0, |SENSITIVE_KEYS|);
    NotFound(line, BEARER);
    PrefixesLeave(line, |TOKEN_PREFIXES|);
  }

  // ------------------------------------------------------------ a password

  const PASSWORD := Assignment("", "password", "", '=', "", None, "hunter2", "")

  lemma PasswordReads()
    ensures Line(PASSWORD) == "password=hunter2" && Lead(PASSWORD) == "password="
    ensures IsAssignment(PASSWORD, SENSITIVE_KEYS[1])
  {
    var value := PASSWORD.value;
    assert forall k :: 0 <= k < |value| ==> 'a' <= value[k] <= 'z' || value[k] == '2';
  }

  lemma PasswordLacks(i: nat)
    requires i < |SENSITIVE_KEYS| && i != 1
    ensures |SENSITIVE_KEYS[i]| >= 3 && Lacks("password=hunter2", SENSITIVE_KEYS[i])
  {
    hide Lacks;
    if i < 5 {
      PasswordLacksFirst(i);
    } else {
      PasswordLacksLast(i);
    }
  }

  lemma PasswordLacksFirst(i: nat)
    requires i < 5 && i != 1
    ensures |SENSITIVE_KEYS[i]| >= 3 && Lacks("password=hunter2", SENSITIVE_KEYS[i])
  {
  }

  lemma PasswordLacksLast(i: nat)
    requires 5 <= i < |SENSITIVE_KEYS|
    ensures |SENSITIVE_KEYS[i]| >= 3 && Lacks("password=hunter2", SENSITIVE_KEYS[i])
  {
  }

  lemma PasswordLacksTokens()
    ensures Free("password=hunter2", BEARER)
    ensures forall j: nat :: j < |TOKEN_PREFIXES| ==> Free("password=hunter2", TOKEN_PREFIXES[j])
  {
    var line := "password=hunter2";
    forall s: nat ensures !MatchesAt(line, s, BEARER) {
      NoMatchBy(line, s, BEARER, 0);
    }
    forall j: nat, s: nat | j < |TOKEN_PREFIXES| ensures !MatchesAt(line, s, TOKEN_PREFIXES[j]) {
      PrefixFacts(j);
      NoMatchBy(line, s, TOKEN_PREFIXES[j], 0);
    }
  }

  lemma EmptyLineStays(key: string)
    requires |key| > 0
    ensures RedactAssignmentFrom("", key, 0) == ""
  {
  }

  /** `password=hunter2` is redacted. */
  lemma PasswordIsMarked()
    ensures RedactLine("password=hunter2") == Some("password=[REDACTED]")
  {
    hide RedactLine, Lacks, Line, Lead, IsAssignment, IsAssigned, Free, MatchesAt, RedactAssignmentFrom;
    PasswordReads();
    forall j: nat | j < |SENSITIVE_KEYS| && j != 1 ensures NoValueOf(Line(PASSWORD), SENSITIVE_KEYS[j]) {
      PasswordLacks(j);
      forall s: nat ensures !MatchesAt(Line(PASSWORD), s, SENSITIVE_KEYS[j]) {
        LacksMatch(Line(PASSWORD), SENSITIVE_KEYS[j], s);
      }
    }
    PasswordLacksTokens();
    hide NoValueOf;
    LineMarksAssignment(PASSWORD, 1);
    EmptyLineStays(SENSITIVE_KEYS[1]);
    assert "" + "password=" + REDACTED + "" == "password=[REDACTED]";
  }

  // ------------------------------------------------------------ a tail behind the marker

  const QUOTED_BEARER := "authorization:bearer x\"y"
  const QUOTED_TAIL := "authorization:[REDACTED]\"y"

  lemma QuotedBearerLacks(i: nat)
    requires i < 5
    ensures |SENSITIVE_KEYS[i]| >= 3 && Lacks(QUOTED_BEARER, SENSITIVE_KEYS[i])
  {
  }

  lemma QuotedTailLacks(i: nat)
    requires 6 <= i < |SENSITIVE_KEYS|
    ensures |SENSITIVE_KEYS[i]| >= 3 && Lacks(QUOTED_TAIL, SENSITIVE_KEYS[i])
  {
  }

  lemma QuotedTailLacksPrefix(i: nat)
    requires i < |TOKEN_PREFIXES|
    ensures |TOKEN_PREFIXES[i]| >= 3 && Lacks(QUOTED_TAIL, TOKEN_PREFIXES[i])
  {
    assert forall s :: 0 <= s < |QUOTED_TAIL| ==> Fold(QUOTED_TAIL[s]) != 'g';
    PrefixFacts(i);
  }

  lemma QuotedTailLacksBearer()
    ensures Lacks(QUOTED_TAIL, BEARER)
  {
  }

  /** Redaction may leave something behind an `authorization` marker: here `"y`. */
  lemma TailIsLeft()
    ensures RedactLine(QUOTED_BEARER) == Some(QUOTED_TAIL)
  {
    hide Lacks, RedactAssignmentFrom, RedactPrefixFrom;
    forall i | 0 <= i < 5 ensures |SENSITIVE_KEYS[i]| >= 3 && Lacks(QUOTED_BEARER, SENSITIVE_KEYS[i]) {
      QuotedBearerLacks(i);
    }
    assert RedactKeys(QUOTED_BEARER, 0) == QUOTED_BEARER;
    KeysLeave(QUOTED_BEARER, 0, 5);
    FirstPass(QUOTED_BEARER, QUOTED_TAIL);
    assert RedactKeys(QUOTED_BEARER, 6) == QUOTED_TAIL;
    forall i | 6 <= i < |SENSITIVE_KEYS| ensures |SENSITIVE_KEYS[i]| >= 3 && Lacks(QUOTED_TAIL, SENSITIVE_KEYS[i]) {
      QuotedTailLacks(i);
    }
    KeysLeave(QUOTED_BEARER, 6, |SENSITIVE_KEYS|);
    QuotedTailLacksBearer();
    NotFound(QUOTED_TAIL, BEARER);
    forall i | 0 <= i < |TOKEN_PREFIXES| ensures |TOKEN_PREFIXES[i]| >= 3 && Lacks(QUOTED_TAIL, TOKEN_PREFIXES[i]) {
      QuotedTailLacksPrefix(i);
    }
    PrefixesLeave(QUOTED_TAIL, |TOKEN_PREFIXES|);
  }

  // ------------------------------------------------------------ a panic

  const EMPTY_BEARER := "[runtime] bearer ,"

  lemma EmptyBearerLacks(i: nat)
    requires i < |SENSITIVE_KEYS|
    ensures |SENSITIVE_KEYS[i]| >= 3 && Lacks(EMPTY_BEARER, SENSITIVE_KEYS[i])
  {
    hide Lacks;
    if i < 5 {
      EmptyBearerLacksFirst(i);
    } else {
      EmptyBearerLacksLast(i);
    }
  }

  lemma EmptyBearerLacksFirst(i: nat)
    requires i < 5
    ensures |SENSITIVE_KEYS[i]| >= 3 && Lacks(EMPTY_BEARER, SENSITIVE_KEYS[i])
  {
  }

  lemma EmptyBearerLacksLast(i: nat)
    requires 5 <= i < |SENSITIVE_KEYS|
    ensures |SENSITIVE_KEYS[i]| >= 3 && Lacks(EMPTY_BEARER, SENSITIVE_KEYS[i])
  {
  }

  /** Redaction is not total: on this line, in the form process output is reported in, it panics. */
  lemma EmptyBearerPanics()
    ensures RedactLine(EMPTY_BEARER) == None
  {
    hide Lacks, RedactAssignmentFrom;
    forall i | 0 <= i < |SENSITIVE_KEYS| ensures |SENSITIVE_KEYS[i]| >= 3 && Lacks(EMPTY_BEARER, SENSITIVE_KEYS[i]) {
      EmptyBearerLacks(i);
    }
    assert RedactKeys(EMPTY_BEARER, 0) == EMPTY_BEARER;
    KeysLeave(EMPTY_BEARER, 0, |SENSITIVE_KEYS|);
    BearerRunsOut();
    PanicsIffRunsOut(EMPTY_BEARER, 0);
  }

  lemma BearerRunsOut()
    ensures RunsOut(EMPTY_BEARER, 0)
  {
    hide FindFrom, MatchesAt;
    EmptyBearerIsFound();
    SeekIs(EMPTY_BEARER, 17, SpaceCommaSemicolonQuote, 17);
  }

  lemma EmptyBearerIsFound()
    ensures FindFrom(EMPTY_BEARER, BEARER, 0) == Some(10)
  {
    hide FindFrom, MatchesAt;
    BearerIsAt(EMPTY_BEARER, 10);
    forall j: nat | j < 10 ensures !MatchesAt(EMPTY_BEARER, j, BEARER) {
      NoMatchBy(EMPTY_BEARER, j, BEARER, 0);
    }
    FindIs(EMPTY_BEARER, BEARER, 0, 10);
  }

  // ------------------------------------------------------------ bearer tokens that stay

  const SKIPPED_BEARER := "bearer , bearer abcdefgh"

  lemma SkippedBearerLacks(i: nat)
    requires i < |SENSITIVE_KEYS|
    ensures |SENSITIVE_KEYS[i]| >= 3 && Lacks(SKIPPED_BEARER, SENSITIVE_KEYS[i])
  {
    hide Lacks;
    if i < 5 {
      SkippedBearerLacksFirst(i);
    } else {
      SkippedBearerLacksLast(i);
    }
  }

  lemma SkippedBearerLacksFirst(i: nat)
    requires i < 5
    ensures |SENSITIVE_KEYS[i]| >= 3 && Lacks(SKIPPED_BEARER, SENSITIVE_KEYS[i])
  {
  }

  lemma SkippedBearerLacksLast(i: nat)
    requires 5 <= i < |SENSITIVE_KEYS|
    ensures |SENSITIVE_KEYS[i]| >= 3 && Lacks(SKIPPED_BEARER, SENSITIVE_KEYS[i])
  {
  }

  lemma SkippedBearerLacksPrefix(i: nat)
    requires i < |TOKEN_PREFIXES|
    ensures |TOKEN_PREFIXES[i]| >= 3 && Lacks(SKIPPED_BEARER, TOKEN_PREFIXES[i])
  {
    PrefixFacts(i);
    assert forall s :: 0 <= s < 22 ==> Fold(SKIPPED_BEARER[s]) != 'g';
  }

  /** Behind an empty token the bearer pass goes on ten bytes further, past the start of the next `bearer `. */
  lemma BearerIsSkipped()
    ensures RedactLine(SKIPPED_BEARER) == Some(SKIPPED_BEARER)
    ensures Unmarked(SKIPPED_BEARER, true, 9)
  {
    hide Lacks, RedactAssignmentFrom, RedactPrefixFrom, RedactBearerFrom;
    forall i | 0 <= i < |SENSITIVE_KEYS|
      ensures |SENSITIVE_KEYS[i]| >= 3 && Lacks(SKIPPED_BEARER, SENSITIVE_KEYS[i])
    {
      SkippedBearerLacks(i);
    }
    forall i | 0 <= i < |TOKEN_PREFIXES| ensures |TOKEN_PREFIXES[i]| >= 3 && Lacks(SKIPPED_BEARER, TOKEN_PREFIXES[i]) {
      SkippedBearerLacksPrefix(i);
    }
    assert RedactKeys(SKIPPED_BEARER, 0) == SKIPPED_BEARER;
    KeysLeave(SKIPPED_BEARER, 0, |SENSITIVE_KEYS|);
    SkippingPass();
    PrefixesLeave(SKIPPED_BEARER, |TOKEN_PREFIXES|);
    SkippedToken();
  }

  lemma SkippingPass()
    ensures RedactBearerFrom(SKIPPED_BEARER, 0) == Some(SKIPPED_BEARER)
  {
    var text := SKIPPED_BEARER;
    BearerIsAt(text, 0);
    FindIs(text, BEARER, 0, 0);
    SeekIs(text, 7, SpaceCommaSemicolonQuote, 7);
    assert RewriteBearer(text, 0) == Progress(text, 17);
    hide RewriteBearer, Seek, FindFrom;
    BearerUnfolds(text, 0, 0);
    NoneBehindSkipped();
  }

  lemma NoneBehindSkipped()
    ensures FindFrom(SKIPPED_BEARER, BEARER, 17) == None
  {
    hide FindFrom, MatchesAt;
    NoMatchBy(SKIPPED_BEARER, 17, BEARER, 1);
    FindsFirst(SKIPPED_BEARER, BEARER, 17);
  }

  lemma SkippedToken()
    ensures Unmarked(SKIPPED_BEARER, true, 9)
  {
    BearerIsAt(SKIPPED_BEARER, 9);
    SeekIs(SKIPPED_BEARER, 16, SpaceCommaSemicolonQuote, 24);
  }

  const BROKEN_BEARER := "bearer\nabcdefgh"
  const JOINED_BEARER := "bearer abcdefgh"

  lemma BrokenBearerLacks(i: nat)
    requires i < |SENSITIVE_KEYS|
    ensures |SENSITIVE_KEYS[i]| >= 3 && Lacks(BROKEN_BEARER, SENSITIVE_KEYS[i])
  {
    hide Lacks;
    if i < 5 {
      BrokenBearerLacksFirst(i);
    } else {
      BrokenBearerLacksLast(i);
    }
  }

  lemma BrokenBearerLacksFirst(i: nat)
    requires i < 5
    ensures |SENSITIVE_KEYS[i]| >= 3 && Lacks(BROKEN_BEARER, SENSITIVE_KEYS[i])
  {
  }

  lemma BrokenBearerLacksLast(i: nat)
    requires 5 <= i < |SENSITIVE_KEYS|
    ensures |SENSITIVE_KEYS[i]| >= 3 && Lacks(BROKEN_BEARER, SENSITIVE_KEYS[i])
  {
  }

  lemma BrokenBearerLacksPrefix(i: nat)
    requires i < |TOKEN_PREFIXES|
    ensures |TOKEN_PREFIXES[i]| >= 3 && Lacks(BROKEN_BEARER, TOKEN_PREFIXES[i])
  {
  }

  lemma BrokenBearerStays()
    ensures RedactLine(BROKEN_BEARER) == Some(BROKEN_BEARER)
  {
    hide Lacks, RedactAssignmentFrom, RedactPrefixFrom;
    var text := BROKEN_BEARER;
    forall i | 0 <= i < |SENSITIVE_KEYS| ensures |SENSITIVE_KEYS[i]| >= 3 && Lacks(text, SENSITIVE_KEYS[i]) {
      BrokenBearerLacks(i);
    }
    forall i | 0 <= i < |TOKEN_PREFIXES| ensures |TOKEN_PREFIXES[i]| >= 3 && Lacks(text, TOKEN_PREFIXES[i]) {
      BrokenBearerLacksPrefix(i);
    }
    assert RedactKeys(text, 0) == text;
    KeysLeave(text, 0, |SENSITIVE_KEYS|);
    NoBearerYet();
    PrefixesLeave(text, |TOKEN_PREFIXES|);
  }

  lemma NoBearerYet()
    ensures FindFrom(BROKEN_BEARER, BEARER, 0) == None
  {
    forall s: nat ensures !MatchesAt(BROKEN_BEARER, s, BEARER) {
      NoMatchBy(BROKEN_BEARER, s, BEARER, 6);
    }
    FindsFirst(BROKEN_BEARER, BEARER, 0);
  }

  lemma BrokenBearerJoins()
    ensures SanitiseLine(BROKEN_BEARER) == JOINED_BEARER
  {
    assert CollapseBreaks(BROKEN_BEARER) == JOINED_BEARER;
  }

  lemma JoinedToken()
    ensures Unmarked(JOINED_BEARER, true, 0)
  {
    BearerIsAt(JOINED_BEARER, 0);
    SeekIs(JOINED_BEARER, 7, SpaceCommaSemicolonQuote, 15);
  }

  /** Line breaks are collapsed behind the redaction, which may join a `bearer` and its token. */
  lemma BearerIsJoined(stream: LogStream, recordedAt: int)
    ensures BoundLog(DeploymentLog(stream, BROKEN_BEARER, recordedAt), LogBounds(None, None, None), 0)
            == Kept(DeploymentLog(stream, JOINED_BEARER, recordedAt))
    ensures Unmarked(JOINED_BEARER, true, 0)
  {
    BrokenBearerStays();
    BrokenBearerJoins();
    JoinedToken();
    hide RedactLine, SanitiseLine, Unmarked;
  }
}
