/**
 * The anchor-text pattern of the version listing,
 *   Python (?P<version>\d\.\d+) \((?P<status>.*)\)
 * applied with `re.search`: the leftmost position where it matches, and at
 * that position the match the backtracking engine finds first (greedy `\d+`
 * and greedy `.*`). Digits are the ASCII digits; `.` matches any character
 * but a newline, as in Python without DOTALL.
 */
module VersionPattern {
  import opened Wrappers

  predicate IsDigit(c: char)
  {
    '0' <= c <= '9'
  }

  /** The literal text before the version group. */
  const Prefix: string := "Python "

  /** The shape of the version group: one digit, a dot, one or more digits. */
  predicate IsVersion(v: string)
  {
    |v| >= 3 && IsDigit(v[0]) && v[1] == '.' && forall i :: 2 <= i < |v| ==> IsDigit(v[i])
  }

  /**
   * The pattern matches `s` at position `p` with these two groups:
   * s[p..] reads "Python " version " (" status ")" and `.*` crossed no newline.
   */
  ghost predicate MatchesAt(s: string, p: nat, version: string, status: string)
  {
    var e := p + |Prefix| + |version|;
    var c := e + 2 + |status|;
    && c < |s|
    && s[p..p + |Prefix|] == Prefix
    && s[p + |Prefix|..e] == version
    && s[e] == ' ' && s[e + 1] == '('
    && s[e + 2..c] == status
    && s[c] == ')'
    && IsVersion(version)
    && '\n' !in status
  }

  /** A successful search: where the match starts and its two groups. */
  datatype Match = Match(start: nat, version: string, status: string)

  /** The length of the run of digits that starts at `i`. */
  function DigitRun(s: string, i: nat): (n: nat)
    requires i <= |s|
    ensures i + n <= |s|
    ensures forall j :: i <= j < i + n ==> IsDigit(s[j])
    ensures i + n < |s| ==> !IsDigit(s[i + n])
    decreases |s| - i
  {
    if i < |s| && IsDigit(s[i]) then 1 + DigitRun(s, i + 1) else 0
  }

  /** Where the line that contains position `i` ends: the first newline at or after `i`, or |s|. */
  function LineEnd(s: string, i: nat): (e: nat)
    requires i <= |s|
    ensures i <= e <= |s|
    ensures forall j :: i <= j < e ==> s[j] != '\n'
    ensures e < |s| ==> s[e] == '\n'
    decreases |s| - i
  {
    if i == |s| || s[i] == '\n' then i else LineEnd(s, i + 1)
  }

  /** The last ')' in s[i..e], found by scanning back from `e`. */
  function LastClose(s: string, i: nat, e: nat): (r: Option<nat>)
    requires i <= e <= |s|
    ensures r.Some? ==> i <= r.value < e && s[r.value] == ')'
    ensures r.Some? ==> forall j :: r.value < j < e ==> s[j] != ')'
    ensures r.None? ==> forall j :: i <= j < e ==> s[j] != ')'
    decreases e - i
  {
    if e == i then None
    else if s[e - 1] == ')' then Some(e - 1)
    else LastClose(s, i, e - 1)
  }

  /**
   * The match the regex engine finds when it starts at `p`: the version
   * is the whole digit run after "Python d.", and `.*` takes everything up
   * to the last ')' before the end of the line.
   */
  function MatchAt(s: string, p: nat): Option<Match>
    requires p <= |s|
  {
    if p + |Prefix| + 3 <= |s| && s[p..p + |Prefix|] == Prefix
       && IsDigit(s[p + 7]) && s[p + 8] == '.'
    then
      var e := p + 9 + DigitRun(s, p + 9);
      if e > p + 9 && e + 2 <= |s| && s[e] == ' ' && s[e + 1] == '(' then
        match LastClose(s, e + 2, LineEnd(s, e + 2))
        case Some(c) => Some(Match(p, s[p + 7..e], s[e + 2..c]))
        case None => None
      else None
    else None
  }

  /** `re.search` from position `p`: the first start position at which the pattern matches. */
  function SearchFrom(s: string, p: nat): Option<Match>
    requires p <= |s|
    decreases |s| - p
  {
    match MatchAt(s, p)
    case Some(m) => Some(m)
    case None => if p == |s| then None else SearchFrom(s, p + 1)
  }

  function Search(s: string): Option<Match>
  {
    SearchFrom(s, 0)
  }

  /** What `MatchAt` finds is a match at `p`. */
  lemma MatchAtSound(s: string, p: nat)
    requires p <= |s|
    requires MatchAt(s, p).Some?
    ensures var m := MatchAt(s, p).value;
      m.start == p && MatchesAt(s, p, m.version, m.status)
  {
    var m := MatchAt(s, p).value;
    var e := p + 9 + DigitRun(s, p + 9);
    var le := LineEnd(s, e + 2);
    var c := LastClose(s, e + 2, le).value;
    assert m.version == s[p + 7..e];
    assert m.status == s[e + 2..c];
    assert p + |Prefix| + |m.version| == e;
    assert forall j :: 0 <= j < |m.status| ==> m.status[j] == s[e + 2 + j];
  }

  /**
   * Any match at `p` is found by `MatchAt`, with the same version and a
   * status no longer than the one `MatchAt` takes: the version group is
   * unique and `.*` is greedy.
   */
  lemma MatchAtComplete(s: string, p: nat, version: string, status: string)
    requires p <= |s|
    requires MatchesAt(s, p, version, status)
    ensures MatchAt(s, p).Some?
    ensures MatchAt(s, p).value.version == version
    ensures |status| <= |MatchAt(s, p).value.status|
  {
    var e := p + |Prefix| + |version|;
    var c := e + 2 + |status|;
    var n := DigitRun(s, p + 9);
    assert s[p + 7] == version[0] && s[p + 8] == version[1];
    forall j | p + 9 <= j < e ensures IsDigit(s[j]) {
      assert s[j] == version[j - p - 7];
    }
    // the digit run stops exactly at the space before '('
    assert p + 9 + n == e;
    var le := LineEnd(s, e + 2);
    forall j | e + 2 <= j < c ensures s[j] != '\n' {
      assert s[j] == status[j - e - 2];
    }
    assert c < le;
    var lc := LastClose(s, e + 2, le);
    assert lc.Some? && c <= lc.value;
  }

  /** Nothing before `p` in the scan from `q` matched. */
  lemma SearchFromSpec(s: string, q: nat)
    requires q <= |s|
    ensures SearchFrom(s, q).Some? ==>
      var m := SearchFrom(s, q).value;
      q <= m.start <= |s| && MatchAt(s, m.start) == Some(m)
      && forall j :: q <= j < m.start ==> MatchAt(s, j).None?
    ensures SearchFrom(s, q).None? ==> forall j :: q <= j <= |s| ==> MatchAt(s, j).None?
    decreases |s| - q
  {
    if MatchAt(s, q).None? && q < |s| {
      SearchFromSpec(s, q + 1);
    }
  }

  /**
   * `Search` is `re.search`: a match it returns is a match of the pattern,
   * no earlier position matches at all, and no other match at the same
   * position has a different version or a longer status.
   */
  lemma SearchFindsLeftmostGreedy(s: string)
    requires Search(s).Some?
    ensures var m := Search(s).value;
      MatchesAt(s, m.start, m.version, m.status)
    ensures var m := Search(s).value;
      forall q: nat, v, st :: q < m.start ==> !MatchesAt(s, q, v, st)
    ensures var m := Search(s).value;
      forall v, st :: MatchesAt(s, m.start, v, st) ==> v == m.version && |st| <= |m.status|
  {
    var m := Search(s).value;
    SearchFromSpec(s, 0);
    MatchAtSound(s, m.start);
    forall q: nat, v, st | q < m.start ensures !MatchesAt(s, q, v, st) {
      if MatchesAt(s, q, v, st) {
        MatchAtComplete(s, q, v, st);
        assert false;
      }
    }
    forall v, st | MatchesAt(s, m.start, v, st) ensures v == m.version && |st| <= |m.status| {
      MatchAtComplete(s, m.start, v, st);
    }
  }

  /** When `Search` finds nothing, the pattern matches nowhere in `s`. */
  lemma SearchNoneMeansNoMatch(s: string)
    requires Search(s).None?
    ensures forall q: nat, v, st :: !MatchesAt(s, q, v, st)
  {
    SearchFromSpec(s, 0);
    forall q: nat, v, st ensures !MatchesAt(s, q, v, st) {
      if MatchesAt(s, q, v, st) {
        MatchAtComplete(s, q, v, st);
        assert false;
      }
    }
  }

  /** The result of parsing an anchor text: both groups, or the raw text. */
  datatype VersionText = Matched(version: string, status: string) | Unmatched(raw: string)

  /** Lines 59-63: the two groups on a match, otherwise the raw text. */
  function ParseAnchorText(text: string): (r: VersionText)
    ensures r.Unmatched? ==> r.raw == text
  {
    match Search(text)
    case Some(m) => Matched(m.version, m.status)
    case None => Unmatched(text)
  }

  /** What the parse returns: on a match both groups of `re.search`, on no match the raw text. */
  lemma ParseAnchorTextSpec(text: string)
    ensures ParseAnchorText(text).Matched? ==>
      exists p: nat :: MatchesAt(text, p, ParseAnchorText(text).version, ParseAnchorText(text).status)
    ensures ParseAnchorText(text).Matched? ==> IsVersion(ParseAnchorText(text).version)
    ensures ParseAnchorText(text).Unmatched? <==> forall q: nat, v, st :: !MatchesAt(text, q, v, st)
  {
    if Search(text).Some? {
      SearchFindsLeftmostGreedy(text);
      var m := Search(text).value;
      assert MatchesAt(text, m.start, m.version, m.status);
    } else {
      SearchNoneMeansNoMatch(text);
    }
  }

  /**
   * An anchor text written as "Python <version> (<status>)" parses back
   * to that version and status, whatever the status holds short of a
   * newline (a ')' inside it included: `.*` runs to the last one).
   */
  lemma FormatParseRoundTrip(version: string, status: string)
    requires IsVersion(version) && '\n' !in status
    ensures ParseAnchorText(Prefix + version + " (" + status + ")") == Matched(version, status)
  {
    var s := Prefix + version + " (" + status + ")";
    var e := |Prefix| + |version|;
    assert s[..|Prefix|] == Prefix;
    assert s[|Prefix|..e] == version;
    assert s[e + 2..e + 2 + |status|] == status;
    assert MatchesAt(s, 0, version, status);
    MatchAtComplete(s, 0, version, status);
    MatchAtSound(s, 0);
    var m := MatchAt(s, 0).value;
    assert m.status == s[e + 2..e + 2 + |m.status|];
  }

  /** An anchor of the python.org sidebar that matches. */
  lemma ParseMatchedExample()
    ensures ParseAnchorText("Python 3.9 (security-fixes)") == Matched("3.9", "security-fixes")
  {
    assert IsVersion("3.9");
    assert Prefix + "3.9" + " (" + "security-fixes" + ")" == "Python 3.9 (security-fixes)";
    FormatParseRoundTrip("3.9", "security-fixes");
  }

  /** Anchors of the python.org sidebar that do not match come back raw. */
  lemma ParseUnmatchedExamples()
    ensures ParseAnchorText("Python 2.7") == Unmatched("Python 2.7")
    ensures ParseAnchorText("All versions") == Unmatched("All versions")
  {
    SearchNoneMeansNone("Python 2.7");
    SearchNoneMeansNone("All versions");
  }

  /** A text shorter than the shortest match "Python d.d ()" has no match. */
  lemma SearchNoneMeansNone(s: string)
    requires |s| < 13
    ensures Search(s).None?
  {
    SearchShort(s, 0);
  }

  lemma {:induction false} SearchShort(s: string, q: nat)
    requires |s| < 13 && q <= |s|
    ensures SearchFrom(s, q).None?
    decreases |s| - q
  {
    if q < |s| {
      SearchShort(s, q + 1);
    }
  }
}
