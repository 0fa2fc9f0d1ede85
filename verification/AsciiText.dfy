/**
 Byte-level text helpers behind the log redactor.

 A Rust `String` is modelled as the sequence of its bytes, one `char` per byte,
 so that every index below is a byte offset, exactly as in the source.
 */
module AsciiText {
  import opened Wrappers

  /** `u8::is_ascii_whitespace`: space, tab, line feed, form feed, carriage return. */
  predicate IsWhitespace(c: char) {
    c == ' ' || c == '\t' || c == '\n' || c == '\r' || c == '\U{0C}'
  }

  predicate IsAlphanumeric(c: char) {
    '0' <= c <= '9' || 'A' <= c <= 'Z' || 'a' <= c <= 'z'
  }

  predicate IsQuote(c: char) {
    c == '\'' || c == '"'
  }

  /** `u8::to_ascii_lowercase`, the comparison behind `eq_ignore_ascii_case`. */
  function Fold(c: char): char {
    if 'A' <= c <= 'Z' then (c as int + 32) as char else c
  }

  /** Two bytes count as the same exactly if they are, or are one letter in both cases. */
  lemma FoldsSameIff(c: char, d: char)
    ensures Fold(c) == Fold(d) <==>
              || c == d
              || ('a' <= c <= 'z' && d as int == c as int - 32)
              || ('a' <= d <= 'z' && c as int == d as int - 32)
  {
  }

  /** The byte window of `text` at `at` equals `needle` up to ASCII letter case. */
  predicate MatchesAt(text: string, at: nat, needle: string) {
    && at + |needle| <= |text|
    && forall k :: 0 <= k < |needle| ==> Fold(text[at + k]) == Fold(needle[k])
  }

  /** `find_ascii_case_insensitive`: the first match at or after `from`. */
  function FindFrom(text: string, needle: string, from: nat): (found: Option<nat>)
    requires from <= |text|
    ensures found.Some? ==> from <= found.value && found.value + |needle| <= |text|
    decreases |text| - from
  {
    if MatchesAt(text, from, needle) then Some(from)
    else if from == |text| then None
    else FindFrom(text, needle, from + 1)
  }

  lemma FindsFirst(text: string, needle: string, from: nat)
    requires from <= |text|
    ensures var found := FindFrom(text, needle, from);
            && (found.Some? ==> MatchesAt(text, found.value, needle))
            && (forall j: nat :: from <= j && (found.Some? ==> j < found.value) ==> !MatchesAt(text, j, needle))
    decreases |text| - from
  {
    if !MatchesAt(text, from, needle) && from < |text| {
      FindsFirst(text, needle, from + 1);
    }
  }

  /** There is only one such position. */
  lemma FindIs(text: string, needle: string, from: nat, p: nat)
    requires from <= |text| && from <= p && MatchesAt(text, p, needle)
    requires forall j: nat :: from <= j < p ==> !MatchesAt(text, j, needle)
    ensures FindFrom(text, needle, from) == Some(p)
  {
    FindsFirst(text, needle, from);
  }

  /** The byte classes the redactor scans for. */
  datatype Stop =
    | NotSpaceOrQuote
    | NotSpace
    | SpaceCommaSemicolon
    | SpaceCommaSemicolonQuote
    | Exactly(c: char)

  predicate Stops(stop: Stop, c: char) {
    match stop
    case NotSpaceOrQuote => !IsWhitespace(c) && !IsQuote(c)
    case NotSpace => !IsWhitespace(c)
    case SpaceCommaSemicolon => IsWhitespace(c) || c == ',' || c == ';'
    case SpaceCommaSemicolonQuote => IsWhitespace(c) || c == ',' || c == ';' || c == '"'
    case Exactly(d) => c == d
  }

  /** First position at or after `from` holding a byte of the class, or the end of the text. */
  function Seek(text: string, from: nat, stop: Stop): (r: nat)
    requires from <= |text|
    ensures from <= r <= |text|
    decreases |text| - from
  {
    if from == |text| || Stops(stop, text[from]) then from
    else Seek(text, from + 1, stop)
  }

  lemma SeeksFirst(text: string, from: nat, stop: Stop)
    requires from <= |text|
    ensures var r := Seek(text, from, stop);
            && (forall k :: from <= k < r ==> !Stops(stop, text[k]))
            && (r < |text| ==> Stops(stop, text[r]))
    decreases |text| - from
  {
    if from < |text| && !Stops(stop, text[from]) {
      SeeksFirst(text, from + 1, stop);
    }
  }

  /** There is only one such position. */
  lemma SeekIs(text: string, from: nat, stop: Stop, r: nat)
    requires from <= r <= |text|
    requires forall k :: from <= k < r ==> !Stops(stop, text[k])
    requires r < |text| ==> Stops(stop, text[r])
    ensures Seek(text, from, stop) == r
  {
    SeeksFirst(text, from, stop);
  }

  /** `u` and `v` agree on the first `p` bytes and on what sits at `p`: the same byte, or the end. */
  ghost predicate AgreeThrough(u: string, v: string, p: nat) {
    && p <= |u| && p <= |v|
    && u[..p] == v[..p]
    && (p < |u| <==> p < |v|)
    && (p < |u| ==> u[p] == v[p])
  }

  lemma SeekAgrees(u: string, v: string, from: nat, stop: Stop)
    requires from <= |u|
    requires AgreeThrough(u, v, Seek(u, from, stop))
    ensures Seek(v, from, stop) == Seek(u, from, stop)
  {
    var p := Seek(u, from, stop);
    SeeksFirst(u, from, stop);
    forall k | from <= k < p ensures !Stops(stop, v[k]) {
      assert v[..p][k] == u[..p][k];
    }
    SeekIs(v, from, stop, p);
  }

  /** Seeking only looks at the bytes from `from` on. */
  lemma SeekShifts(u: string, v: string, at: nat, to: nat, stop: Stop)
    requires at <= |u| && to <= |v| && u[at..] == v[to..]
    ensures Seek(v, to, stop) - to == Seek(u, at, stop) - at
  {
    SameTail(u, v, at, to);
    var p := Seek(u, at, stop);
    SeeksFirst(u, at, stop);
    forall k | to <= k < p - at + to ensures !Stops(stop, v[k]) {
      ByteMoves(u, v, at, to, k - to + at);
    }
    if p < |u| {
      ByteMoves(u, v, at, to, p);
    }
    SeekIs(v, to, stop, p - at + to);
  }

  lemma SameTail(u: string, v: string, at: nat, to: nat)
    requires at <= |u| && to <= |v| && u[at..] == v[to..]
    ensures |u| - at == |v| - to
  {
    assert |u[at..]| == |v[to..]|;
  }

  lemma ByteMoves(u: string, v: string, at: nat, to: nat, p: nat)
    requires at <= p < |u| && to <= |v| && u[at..] == v[to..]
    ensures p - at + to < |v| && v[p - at + to] == u[p]
  {
    SameTail(u, v, at, to);
    assert u[at..][p - at] == v[to..][p - at];
  }

  lemma MatchShifts(u: string, v: string, at: nat, to: nat, needle: string)
    requires at <= |u| && to <= |v| && u[at..] == v[to..]
    ensures MatchesAt(u, at, needle) <==> MatchesAt(v, to, needle)
  {
    SameTail(u, v, at, to);
    if at + |needle| <= |u| {
      forall k | 0 <= k < |needle|
        ensures Fold(u[at + k]) == Fold(needle[k]) <==> Fold(v[to + k]) == Fold(needle[k])
      {
        ByteMoves(u, v, at, to, at + k);
      }
    }
  }
}
