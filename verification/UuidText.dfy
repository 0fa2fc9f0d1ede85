/** UUIDs by their fixed-length text form (section 4 of RFC 9562). */
module UuidText {
  import opened Wrappers

  predicate IsLowerHex(c: char) {
    '0' <= c <= '9' || 'a' <= c <= 'f'
  }

  predicate IsHex(c: char) {
    IsLowerHex(c) || 'A' <= c <= 'F'
  }

  predicate IsHyphen(i: nat) {
    i == 8 || i == 13 || i == 18 || i == 23
  }

  predicate HasUuidForm(s: string) {
    |s| == 36 && forall i :: 0 <= i < 36 ==> if IsHyphen(i) then s[i] == '-' else IsHex(s[i])
  }

  predicate IsUuid(s: string) {
    |s| == 36 && forall i :: 0 <= i < 36 ==> if IsHyphen(i) then s[i] == '-' else IsLowerHex(s[i])
  }

  /** A UUID is what it prints as. */
  type Uuid = s: string | IsUuid(s) witness "00000000-0000-0000-0000-000000000000"

  function LowerHex(c: char): (r: char)
    ensures IsHex(c) ==> IsLowerHex(r)
    ensures !('A' <= c <= 'Z') ==> r == c
  {
    if 'A' <= c <= 'Z' then (c as int + 32) as char else c
  }

  function Lower(s: string): (r: string)
    ensures |r| == |s| && forall i :: 0 <= i < |s| ==> r[i] == LowerHex(s[i])
  {
    seq(|s|, i requires 0 <= i < |s| => LowerHex(s[i]))
  }

  function ParseHyphenated(s: string): (r: Option<Uuid>) {
    if HasUuidForm(s) then Some(Lower(s)) else None
  }

  function WithHyphens(s: string): (r: string)
    requires |s| == 32
  {
    s[..8] + "-" + s[8..12] + "-" + s[12..16] + "-" + s[16..20] + "-" + s[20..]
  }

  /** `Uuid::parse_str`: hyphenated, without hyphens, in braces, or as a URN, in either letter case. */
  function Parse(s: string): (r: Option<Uuid>) {
    if |s| == 32 then ParseHyphenated(WithHyphens(s))
    else if |s| == 36 then ParseHyphenated(s)
    else if |s| == 38 && s[0] == '{' && s[37] == '}' then ParseHyphenated(s[1..37])
    else if |s| == 45 && s[..9] == "urn:uuid:" then ParseHyphenated(s[9..])
    else None
  }

  /** What is printed parses back to itself. */
  lemma PrintedParses(u: Uuid)
    ensures Parse(u) == Some(u)
  {
    assert HasUuidForm(u);
    assert Lower(u) == u;
  }

  /** And so do the other forms: without hyphens, in braces, as a URN (section 4 of RFC 9562). */
  lemma OtherFormsParse(u: Uuid)
    ensures Parse("{" + u + "}") == Some(u)
    ensures Parse("urn:uuid:" + u) == Some(u)
    ensures Parse(u[..8] + u[9..13] + u[14..18] + u[19..23] + u[24..]) == Some(u)
  {
    PrintedParses(u);
    var braced, urn, bare := "{" + u + "}", "urn:uuid:" + u, u[..8] + u[9..13] + u[14..18] + u[19..23] + u[24..];
    assert |braced| == 38 && braced[0] == '{' && braced[37] == '}' && braced[1..37] == u;
    assert |urn| == 45 && urn[..9] == "urn:uuid:" && urn[9..] == u;
    BareIsHyphenated(u);
    hide ParseHyphenated, WithHyphens;
  }

  lemma BareIsHyphenated(u: Uuid)
    ensures WithHyphens(u[..8] + u[9..13] + u[14..18] + u[19..23] + u[24..]) == u
  {
    assert u[8] == '-' && u[13] == '-' && u[18] == '-' && u[23] == '-';
    hide IsUuid;
    var a, b, c, d, e := u[..8], u[9..13], u[14..18], u[19..23], u[24..];
    GroupsJoin(a, b, c, d, e);
    assert u == a + "-" + b + "-" + c + "-" + d + "-" + e;
  }

  lemma GroupsJoin(a: string, b: string, c: string, d: string, e: string)
    requires |a| == 8 && |b| == 4 && |c| == 4 && |d| == 4 && |e| == 12
    ensures WithHyphens(a + b + c + d + e) == a + "-" + b + "-" + c + "-" + d + "-" + e
  {
    var bare := a + b + c + d + e;
    assert bare[..8] == a && bare[8..12] == b && bare[12..16] == c && bare[16..20] == d && bare[20..] == e;
  }
}
